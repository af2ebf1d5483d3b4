/** The collector as the runtime runs it: registry, address index, mark bits and counters updated in
    place. Every operation is proved to be a step of the heap's state machine. */
module ManagedHeap {
  import opened Wrappers
  import opened HeapModel
  import opened AllocationIndex
  import opened Bits
  import opened Hashing

  /** Marking a list of references: the registered ones join the marked set. */
  ghost function Registered(references: seq<Address>, registry: seq<Allocation>): set<Address> {
    set a | a in references && a in Addresses(registry)
  }

  /** The registered ones of the references are marked, and the newly marked stand on the worklist. */
  ghost predicate Enqueued(registry: seq<Allocation>, references: seq<Address>, before: set<Address>,
                           pending: seq<Address>, marked: set<Address>, worklist: seq<Address>) {
    && marked == before + Registered(references, registry)
    && (forall a :: a in worklist <==> a in pending || a in marked - before)
    && (marked == before ==> worklist == pending)
  }

  lemma EnqueuedThen(registry: seq<Allocation>, first: seq<Address>, second: seq<Address>, before: set<Address>,
                     pending: seq<Address>, middle: set<Address>, between: seq<Address>, marked: set<Address>,
                     worklist: seq<Address>)
    requires Enqueued(registry, first, before, pending, middle, between)
    requires Enqueued(registry, second, middle, between, marked, worklist)
    ensures Enqueued(registry, first + second, before, pending, marked, worklist)
  {
    assert Registered(first + second, registry) == Registered(first, registry) + Registered(second, registry);
    assert before <= middle <= marked;
  }

  lemma {:induction false} NoElementWords(words: map<nat, Address>, elementSize: nat, count: nat)
    ensures ElementWords(words, [], elementSize, count) == []
  {
    if count > 0 {
      NoElementWords(words, elementSize, count - 1);
    }
  }

  lemma {:induction false} BytesAppend(a: seq<Allocation>, b: seq<Allocation>)
    ensures Bytes(a + b) == Bytes(a) + Bytes(b)
  {
    if a == [] {
      assert a + b == b;
    } else {
      BytesAppend(a[1..], b);
      assert (a + b)[1..] == a[1..] + b;
    }
  }

  lemma {:induction false} KeepAppend(a: seq<Allocation>, b: seq<Allocation>, kept: set<Address>)
    ensures Keep(a + b, kept) == Keep(a, kept) + Keep(b, kept)
  {
    if a == [] {
      assert a + b == b;
    } else {
      KeepAppend(a[1..], b, kept);
      assert (a + b)[0] == a[0] && (a + b)[1..] == a[1..] + b;
      if a[0].address in kept {
        assert Keep(a + b, kept) == [a[0]] + (Keep(a[1..], kept) + Keep(b, kept));
      }
    }
  }

  lemma KeepPrefix(registry: seq<Allocation>, i: nat, kept: set<Address>)
    requires i < |registry|
    ensures Keep(registry[..i + 1], kept)
         == Keep(registry[..i], kept) + if registry[i].address in kept then [registry[i]] else []
  {
    assert registry[..i + 1] == registry[..i] + [registry[i]];
    KeepAppend(registry[..i], [registry[i]], kept);
    assert Keep([registry[i]], kept) == if registry[i].address in kept then [registry[i]] else [];
  }

  /** Unlinking the node between two parts of the list. */
  lemma UnlinkBytes(front: seq<Allocation>, x: Allocation, back: seq<Allocation>)
    ensures Bytes(front + [x] + back) == Bytes(front + back) + x.size
  {
    BytesAppend(front, back);
    BytesAppend(front + [x], back);
    BytesAppend(front, [x]);
  }

  /** The tables a lookup relies on. */
  ghost predicate Indexed(index: seq<Entry>, registry: seq<Allocation>) {
    && DistinctAddresses(registry)
    && (forall x :: x in registry ==> x.address != 0)
    && (|index| == 0 || (PowerOfTwo(|index|) && INITIAL_CAPACITY <= |index|))
    && 2 * |registry| <= |index|
    && Represents(index, LiveSet(registry))
  }

  lemma IndexedFacts(index: seq<Entry>, registry: seq<Allocation>)
    requires Indexed(index, registry)
    ensures OnePerAddress(LiveSet(registry))
    ensures |LiveSet(registry)| < |index| || LiveSet(registry) == {}
  {
    LiveSetSize(registry);
    forall x, y | x in registry && y in registry && x.address == y.address ensures x == y {
      var i :| 0 <= i < |registry| && registry[i] == x;
      var j :| 0 <= j < |registry| && registry[j] == y;
    }
  }

  /** Registry, index, counters and marks agree. */
  ghost predicate Sound(s: State, index: seq<Entry>, liveObjects: nat, liveBytes: nat, marked: set<Address>) {
    && Invariant(s)
    && Indexed(index, s.registry)
    && liveObjects == |s.registry| && liveBytes == Bytes(s.registry)
    && marked == {}
  }

  lemma CollectIsSound(s: State, index: seq<Entry>, liveObjects: nat, liveBytes: nat, rebuilt: seq<Entry>)
    requires Sound(s, index, liveObjects, liveBytes, {}) && Indexed(rebuilt, Collect(s).registry)
    ensures Sound(Collect(s), rebuilt, |Collect(s).registry|, Bytes(Collect(s).registry), {})
  {
    CollectKeepsInvariant(s);
  }

  /** The collected heap with the threshold that makes room for a request. */
  lemma RoomIsSound(s: State, index: seq<Entry>, liveObjects: nat, liveBytes: nat, size: nat)
    requires Invariant(s) && Bytes(s.registry) + size > s.threshold && CollectBeforeAllocation(s, size).Some?
    requires Sound(Collect(s), index, liveObjects, liveBytes, {})
    ensures Sound(CollectBeforeAllocation(s, size).value, index, liveObjects, liveBytes, {})
  {
    RoomKeepsInvariant(s, size);
  }

  /** Why an allocation stops the runtime: the byte count overflows, or a counter or the index is at its limit. */
  ghost predicate NoRoom(room: Option<State>) {
    room.None? || |room.value.registry| == MAX_UINT64 || room.value.nextIdentity == MAX_UINT64
    || 2 * (|room.value.registry| + 1) > MAXIMUM_CAPACITY / 2
  }

  function Linked(s: State, x: Allocation, o: Object): State {
    State([x] + s.registry, s.objects[x.address := o], s.roots, s.frames, s.collections,
          Max(s.peak, Bytes(s.registry) + x.size), s.threshold, s.nextIdentity + 1)
  }

  lemma LinkIsSound(s: State, index: seq<Entry>, liveObjects: nat, liveBytes: nat, x: Allocation, o: Object,
                    grown: seq<Entry>)
    requires Sound(s, index, liveObjects, liveBytes, {})
    requires x.address != 0 && x.address !in Addresses(s.registry) && x.identity == s.nextIdentity
    requires liveBytes + x.size <= s.threshold && liveObjects != MAX_UINT64 && s.nextIdentity != MAX_UINT64
    requires |grown| == |index| && 2 * (liveObjects + 1) <= |grown| && Represents(grown, LiveSet(s.registry) + {x})
    ensures Register(s, x.address, x.size, o) == Some(Linked(s, x, o))
    ensures Sound(Linked(s, x, o), grown, liveObjects + 1, liveBytes + x.size, {})
  {
    LinkedIndex(x, s.registry);
    RegisterFields(s, x, o);
    RegisterKeepsInvariant(s, x.address, x.size, o);
  }

  lemma RegisterFields(s: State, x: Allocation, o: Object)
    requires |s.registry| != MAX_UINT64 && s.nextIdentity != MAX_UINT64 && x.identity == s.nextIdentity
    ensures Register(s, x.address, x.size, o) == Some(Linked(s, x, o))
  {
    BytesAppend([x], s.registry);
  }

  lemma LinkedIndex(x: Allocation, registry: seq<Allocation>)
    requires x.address !in Addresses(registry)
    ensures x !in LiveSet(registry) && |LiveSet(registry)| <= |registry|
    ensures LiveSet([x] + registry) == LiveSet(registry) + {x}
    ensures Bytes([x] + registry) == x.size + Bytes(registry)
  {
    LiveSetSize(registry);
    BytesAppend([x], registry);
  }

  class Heap {
    var registry: seq<Allocation>
    var index: array<Entry>
    var objects: map<Address, Object>
    var roots: map<SlotId, Address>
    var frames: seq<Frame>
    var marked: set<Address>
    var liveObjects: nat
    var liveBytes: nat
    var collections: nat
    var peak: nat
    var threshold: nat
    var nextIdentity: nat

    function Snapshot(): State
      reads this
    {
      State(registry, objects, roots, frames, collections, peak, threshold, nextIdentity)
    }

    /** What holds between operations. */
    ghost predicate Valid()
      reads this, index
    {
      Sound(Snapshot(), index[..], liveObjects, liveBytes, marked)
    }

    constructor ()
      ensures Valid() && Snapshot() == INITIAL && fresh(index)
    {
      registry, objects, roots, frames, marked := [], map[], map[], [], {};
      liveObjects, liveBytes, collections, peak := 0, 0, 0, 0;
      threshold, nextIdentity := INITIAL_THRESHOLD, 1;
      index := new Entry[0];
      new;
      assert LiveSet(registry) == {};
    }

    method FindAllocation(p: Address) returns (r: Option<Allocation>)
      requires Indexed(index[..], registry)
      ensures r.Some? <==> p in Addresses(registry)
      ensures r.Some? ==> r.value in registry && r.value.address == p
    {
      IndexedFacts(index[..], registry);
      r := Find(index, p, LiveSet(registry));
    }

    /** Marks a registered reference that is not yet marked and puts it on the worklist. */
    method EnqueueReference(a: Address, worklist: seq<Address>) returns (next: seq<Address>)
      requires Indexed(index[..], registry)
      modifies this`marked
      ensures marked == old(marked) + Registered([a], registry)
      ensures next == if marked == old(marked) then worklist else [a] + worklist
    {
      next := worklist;
      var allocation := FindAllocation(a);
      if allocation.Some? && a !in marked {
        marked := marked + {a};
        next := [a] + worklist;
      }
    }

    /** Enqueues every reference of a list, in order. */
    method EnqueueAll(references: seq<Address>, worklist: seq<Address>) returns (next: seq<Address>)
      requires Indexed(index[..], registry)
      modifies this`marked
      ensures Enqueued(registry, references, old(marked), worklist, marked, next)
    {
      next := worklist;
      for i := 0 to |references|
        invariant Enqueued(registry, references[..i], old(marked), worklist, marked, next)
      {
        ghost var middle, between := marked, next;
        next := EnqueueReference(references[i], next);
        assert references[..i + 1] == references[..i] + [references[i]];
        EnqueuedThen(registry, references[..i], [references[i]], old(marked), worklist, middle, between, marked, next);
      }
      assert references[..|references|] == references;
    }

    /** Enqueues the contents of every slot of every active frame. */
    method EnqueueRoots() returns (worklist: seq<Address>)
      requires Indexed(index[..], registry) && objects.Keys == Addresses(registry) && marked == {}
      modifies this`marked
      ensures forall a :: a in worklist <==> a in marked
      ensures marked == RegisteredRoots(Snapshot())
    {
      worklist := [];
      for f := 0 to |frames|
        invariant forall a :: a in worklist <==> a in marked
        invariant marked == RootsUpTo(Snapshot(), f)
      {
        var frame, s := frames[f].slots, Snapshot();
        var contents := seq(|frame|, i requires 0 <= i < |frame| => RootValue(s, frame[i]));
        worklist := EnqueueAll(contents, worklist);
        RootsOfFrame(Snapshot(), f, contents);
      }
    }

    /** Enqueues the words at the offsets from a base on. */
    method EnqueueWords(words: map<nat, Address>, offsets: seq<nat>, base: nat, worklist: seq<Address>)
      returns (next: seq<Address>)
      requires Indexed(index[..], registry)
      modifies this`marked
      ensures Enqueued(registry, ReadWords(words, offsets, base), old(marked), worklist, marked, next)
    {
      next := worklist;
      for slot := 0 to |offsets|
        invariant Enqueued(registry, ReadWords(words, offsets[..slot], base), old(marked), worklist, marked, next)
      {
        ghost var before := ReadWords(words, offsets[..slot], base);
        ghost var middle, between := marked, next;
        var reference := Word(words, base + offsets[slot]);
        next := EnqueueReference(reference, next);
        assert ReadWords(words, offsets[..slot + 1], base) == before + [reference];
        EnqueuedThen(registry, before, [reference], old(marked), worklist, middle, between, marked, next);
      }
      assert offsets[..|offsets|] == offsets;
    }

    /** Enqueues the references of every element of an array. */
    method EnqueueElements(words: map<nat, Address>, offsets: seq<nat>, elementSize: nat, length: nat,
                           worklist: seq<Address>) returns (next: seq<Address>)
      requires Indexed(index[..], registry)
      modifies this`marked
      ensures Enqueued(registry, ElementWords(words, offsets, elementSize, length), old(marked), worklist, marked, next)
    {
      next := worklist;
      if |offsets| == 0 {
        NoElementWords(words, elementSize, length);
        return;
      }
      for i := 0 to length
        invariant Enqueued(registry, ElementWords(words, offsets, elementSize, i), old(marked), worklist, marked, next)
      {
        ghost var middle, between := marked, next;
        next := EnqueueWords(words, offsets, i * elementSize, next);
        EnqueuedThen(registry, ElementWords(words, offsets, elementSize, i), ReadWords(words, offsets, i * elementSize),
                     old(marked), worklist, middle, between, marked, next);
      }
    }

    /** Enqueues what an object refers to, by its kind. */
    method EnqueueReferences(o: Object, worklist: seq<Address>) returns (next: seq<Address>)
      requires Indexed(index[..], registry)
      modifies this`marked
      ensures Enqueued(registry, References(o), old(marked), worklist, marked, next)
    {
      match o {
        case Instance(_, offsets, words) => next := EnqueueWords(words, offsets, 0, worklist);
        case String => next := worklist;
        case Array(elementSize, offsets, length, words) =>
          next := EnqueueElements(words, offsets, elementSize, length, worklist);
      }
    }

    /** Takes an object off the worklist and enqueues what it refers to. */
    method VisitNext(worklist: seq<Address>) returns (next: seq<Address>)
      requires Indexed(index[..], registry) && objects.Keys == Addresses(registry)
      requires worklist != [] && MarkedSoFar(Snapshot(), marked, worklist)
      modifies this`marked
      ensures MarkedSoFar(Snapshot(), marked, next)
      ensures old(marked) <= marked <= Addresses(registry)
      ensures marked == old(marked) ==> next == worklist[1..]
    {
      ghost var s := Snapshot();
      FirstIsMarked(s, marked, worklist);
      next := EnqueueReferences(objects[worklist[0]], worklist[1..]);
      assert Snapshot() == s;
      VisitKeepsMarks(s, old(marked), worklist, marked, next);
    }

    /** Marks exactly what is reachable from the active frames, cycles included. */
    method MarkReachable()
      requires Indexed(index[..], registry) && objects.Keys == Addresses(registry) && marked == {}
      modifies this`marked
      ensures marked == ReachableSet(Snapshot())
    {
      var worklist := EnqueueRoots();
      RootsAreReachable(Snapshot());
      while worklist != []
        invariant MarkedSoFar(Snapshot(), marked, worklist)
        decreases Addresses(registry) - marked, |worklist|
      {
        ghost var before := marked;
        worklist := VisitNext(worklist);
        MarkingShrinks(Addresses(registry), before, marked);
      }
      MarkedAtEnd(Snapshot(), marked);
    }

    /** Empties the index and inserts what is left of the registry. */
    method RebuildIndex()
      requires DistinctAddresses(registry) && (forall x :: x in registry ==> x.address != 0)
      requires index.Length == 0 || (PowerOfTwo(index.Length) && INITIAL_CAPACITY <= index.Length)
      requires 2 * |registry| <= index.Length
      modifies index
      ensures Indexed(index[..], registry)
    {
      for i := 0 to index.Length
        invariant forall k :: 0 <= k < i ==> index[k].None?
      {
        index[i] := None;
      }
      FillIndex(index, registry);
    }

    /** The node the link points at: a marked one is unmarked and passed, any other is unlinked and its object
        destroyed. */
    method SweepNode(link: nat, ghost list: seq<Allocation>, ghost marks: set<Address>,
                     ghost all: map<Address, Object>, ghost i: nat)
      returns (next: nat)
      requires i < |list| && SweptTo(list, marks, all, i, registry, link, marked, objects, liveObjects, liveBytes)
      modifies this`registry, this`objects, this`marked, this`liveObjects, this`liveBytes
      ensures SweptTo(list, marks, all, i + 1, registry, next, marked, objects, liveObjects, liveBytes)
    {
      SweepStep(list, marks, all, i, registry, link, marked, objects, liveObjects, liveBytes);
      var allocation := registry[link];
      next := link;
      if allocation.address in marked {
        marked := marked - {allocation.address};
        next := link + 1;
      } else {
        registry := registry[..link] + registry[link + 1..];
        liveObjects := liveObjects - 1;
        liveBytes := liveBytes - allocation.size;
        objects := objects - {allocation.address};
      }
    }

    /** Walks the registry list: a marked node is unmarked and kept, any other is unlinked and its object destroyed. */
    method SweepList()
      requires Counted() && marked <= Addresses(registry)
      modifies this`registry, this`objects, this`marked, this`liveObjects, this`liveBytes
      ensures registry == Keep(old(registry), old(marked)) && marked == {}
      ensures objects == Restrict(old(objects), old(marked))
      ensures liveObjects == |registry| && liveBytes == Bytes(registry)
    {
      ghost var list, marks, all := registry, marked, objects;
      var link := 0;
      SweepStart(list, marks, all);
      for i := 0 to |registry|
        invariant SweptTo(list, marks, all, i, registry, link, marked, objects, liveObjects, liveBytes)
      {
        link := SweepNode(link, list, marks, all, i);
      }
      SweepEnd(list, marks, all, registry, link, marked, objects, liveObjects, liveBytes);
    }

    /** Mark, sweep and rebuild the index. */
    method Reclaim()
      requires Valid()
      modifies this`registry, this`objects, this`marked, this`liveObjects, this`liveBytes, index
      ensures registry == Collect(old(Snapshot())).registry && objects == Collect(old(Snapshot())).objects
      ensures marked == {}
      ensures liveObjects == |registry| && liveBytes == Bytes(registry) && Indexed(index[..], registry)
    {
      ghost var before := Snapshot();
      CollectKeepsInvariant(before);
      MarkReachable();
      assert marked <= Addresses(registry);
      SweepList();
      assert registry == Collect(before).registry;
      RebuildIndex();
    }

    /** A collection, which also counts itself and sets the next threshold from what is left. */
    method CollectHeap()
      requires Valid()
      modifies this`registry, this`objects, this`marked, this`liveObjects, this`liveBytes, this`collections,
          this`threshold, index
      ensures Valid() && Snapshot() == Collect(old(Snapshot()))
    {
      ghost var before, was := Snapshot(), index[..];
      Reclaim();
      CollectIsSound(before, was, |before.registry|, Bytes(before.registry), index[..]);
      if collections != MAX_UINT64 {
        collections := collections + 1;
      }
      threshold := Max(INITIAL_THRESHOLD, SaturatingDouble(liveBytes));
      assert Snapshot() == Collect(before);
    }

    /** Collects when the request would pass the threshold; the runtime stops on overflow. */
    method MakeRoom(size: nat) returns (ok: bool)
      requires Valid()
      modifies this`registry, this`objects, this`marked, this`liveObjects, this`liveBytes, this`collections,
          this`threshold, index
      ensures ok ==> Valid() && Some(Snapshot()) == CollectBeforeAllocation(old(Snapshot()), size)
      ensures !ok ==> CollectBeforeAllocation(old(Snapshot()), size).None?
    {
      ghost var before := Snapshot();
      if size + liveBytes > MAX_UINT64 {
        return false;
      }
      RoomKeepsInvariant(before, size);
      if liveBytes + size <= threshold {
        return true;
      }
      CollectHeap();
      RoomIsSound(before, index[..], liveObjects, liveBytes, size);
      var after := liveBytes + size;
      if after > threshold {
        threshold := Max(INITIAL_THRESHOLD, SaturatingDouble(after));
      }
      assert Snapshot() == CollectBeforeAllocation(before, size).value;
      return true;
    }

    /** Grows the index when the registry would fill more than half of it. */
    method ReserveIndex(required: nat) returns (ok: bool)
      requires Valid() && required == |registry| + 1
      modifies this`index
      ensures ok ==> Valid() && 2 * required <= index.Length
      ensures index == old(index) || fresh(index)
      ensures Snapshot() == old(Snapshot())
      ensures !ok ==> 2 * required > MAXIMUM_CAPACITY / 2
    {
      if required <= index.Length / 2 {
        return true;
      }
      var capacity := GrownCapacity(index.Length, required);
      if capacity.None? {
        return false;
      }
      var grown := new Entry[capacity.value](_ => None);
      FillIndex(grown, registry);
      index := grown;
      return true;
    }

    /** Adds an object at the head of the registry and to the index. */
    method RegisterAllocation(address: Address, size: nat, o: Object) returns (ok: bool)
      requires Valid() && address != 0 && address !in Addresses(registry) && liveBytes + size <= threshold
      modifies this, index
      ensures ok ==> Valid() && Some(Snapshot()) == Register(old(Snapshot()), address, size, o)
      ensures ok ==> index == old(index) || fresh(index)
      ensures !ok ==>
                Register(old(Snapshot()), address, size, o).None?
                || 2 * (|old(registry)| + 1) > MAXIMUM_CAPACITY / 2
    {
      ghost var before := Snapshot();
      if liveObjects == MAX_UINT64 || nextIdentity == MAX_UINT64 {
        return false;
      }
      var reserved := ReserveIndex(liveObjects + 1);
      if !reserved {
        return false;
      }
      Link(Allocation(address, size, nextIdentity), o);
      return true;
    }

    /** Puts a new allocation at the head of the list and into the index, and counts it. */
    method Link(allocation: Allocation, o: Object)
      requires Valid() && allocation.address != 0 && allocation.address !in Addresses(registry)
      requires liveBytes + allocation.size <= threshold && allocation.identity == nextIdentity
      requires liveObjects != MAX_UINT64 && nextIdentity != MAX_UINT64 && 2 * (|registry| + 1) <= index.Length
      modifies this`registry, this`objects, this`liveObjects, this`liveBytes, this`peak, this`nextIdentity, index
      ensures Valid() && Some(Snapshot()) == Register(old(Snapshot()), allocation.address, allocation.size, o)
    {
      ghost var before, was := Snapshot(), index[..];
      IndexAllocation(allocation);
      ghost var grown := index[..];
      LinkIsSound(before, was, liveObjects, liveBytes, allocation, o, grown);
      CountAllocation(allocation, o);
      assert index[..] == grown;
    }

    method IndexAllocation(allocation: Allocation)
      requires Represents(index[..], LiveSet(registry)) && allocation.address !in Addresses(registry)
      requires 2 * (|registry| + 1) <= index.Length
      modifies index
      ensures Represents(index[..], LiveSet(registry) + {allocation})
    {
      LinkedIndex(allocation, registry);
      Insert(index, allocation, LiveSet(registry));
    }

    method CountAllocation(allocation: Allocation, o: Object)
      requires liveBytes == Bytes(registry)
      modifies this`registry, this`objects, this`liveObjects, this`liveBytes, this`peak, this`nextIdentity
      ensures Snapshot() == Linked(old(Snapshot()), allocation, o)
      ensures liveObjects == old(liveObjects) + 1 && liveBytes == old(liveBytes) + allocation.size
    {
      nextIdentity := nextIdentity + 1;
      registry := [allocation] + registry;
      objects := objects[allocation.address := o];
      liveObjects := liveObjects + 1;
      liveBytes := liveBytes + allocation.size;
      peak := Max(peak, liveBytes);
    }

    /** `allocator` stands for the system allocator: once there is room it returns neither null nor the address of an
        object that is live then. */
    method Allocate(allocator: set<Address> -> Address, size: nat, o: Object) returns (address: Address, ok: bool)
      requires Valid()
      requires var room := CollectBeforeAllocation(Snapshot(), size);
               room.Some? ==> var live := room.value.objects.Keys; allocator(live) != 0 && allocator(live) !in live
      modifies this, index
      ensures ok ==> Valid() && Some(Snapshot()) == Step(old(Snapshot()), Action.Allocate(address, size, o))
      ensures ok ==> index == old(index) || fresh(index)
      ensures !ok ==> NoRoom(CollectBeforeAllocation(old(Snapshot()), size))
    {
      ghost var before := Snapshot();
      address := 0;
      ok := MakeRoom(size);
      if ok {
        RoomKeepsInvariant(before, size);
        address := allocator(objects.Keys);
        ok := RegisterAllocation(address, size, o);
      }
    }

    method WriteWord(address: Address, offset: nat, value: Address)
      requires Valid() && address in objects
      modifies this`objects
      ensures Valid() && Some(Snapshot()) == Step(old(Snapshot()), Action.WriteWord(address, offset, value))
    {
      StepKeepsInvariant(Snapshot(), Action.WriteWord(address, offset, value));
      objects := objects[address := Update(objects[address], offset, value)];
    }

    method WriteRoot(slot: SlotId, value: Address)
      requires Valid()
      modifies this`roots
      ensures Valid() && Some(Snapshot()) == Step(old(Snapshot()), Action.WriteRoot(slot, value))
    {
      roots := roots[slot := value];
    }

    /** Pushes a frame; refuses a null one, one without its table, one with a null slot, and the top one again. */
    method PushFrame(frame: Address, hasTable: bool, slots: seq<SlotId>) returns (ok: bool)
      requires Valid() && (IsActive(frames, frame) ==> IsTop(frames, frame))
      modifies this`frames
      ensures Valid() && ok == Step(old(Snapshot()), Action.PushFrame(frame, hasTable, slots)).Some?
      ensures ok <==> !(frame == 0 || hasTable != (slots != []) || 0 in slots || IsTop(old(frames), frame))
      ensures Some(Snapshot()) == if ok then Step(old(Snapshot()), Action.PushFrame(frame, hasTable, slots))
           else Some(old(Snapshot()))
    {
      if frame == 0 || hasTable == (slots == []) {
        return false;
      }
      if frames != [] && frames[0].address == frame {
        return false;
      }
      for i := 0 to |slots|
        invariant 0 !in slots[..i]
      {
        if slots[i] == 0 {
          return false;
        }
        assert slots[..i + 1] == slots[..i] + [slots[i]];
      }
      assert slots[..|slots|] == slots;
      frames := [Frame(frame, slots)] + frames;
      ok := true;
    }

    /** Popping any frame but the top one is refused. */
    method PopFrame(frame: Address) returns (ok: bool)
      requires Valid()
      modifies this`frames
      ensures Valid() && ok == Step(old(Snapshot()), Action.PopFrame(frame)).Some?
      ensures Some(Snapshot()) == if ok then Step(old(Snapshot()), Action.PopFrame(frame)) else Some(old(Snapshot()))
    {
      ok := frame != 0 && frames != [] && frames[0].address == frame;
      if ok {
        frames := frames[1..];
      }
    }

    /** The default hash code of a live object; none when the address is not registered. */
    method ObjectHashCode(p: Address) returns (hash: Option<nat>)
      requires Valid()
      ensures hash.None? <==> p !in Addresses(registry)
      ensures forall x :: x in registry && x.address == p ==> hash == Some(MixHash(x.identity))
    {
      IndexedFacts(index[..], registry);
      var allocation := FindAllocation(p);
      hash := if allocation.Some? then Some(MixHash(allocation.value.identity)) else None;
    }

    ghost predicate Counted()
      reads this
    {
      && DistinctAddresses(registry) && objects.Keys == Addresses(registry)
      && liveObjects == |registry| && liveBytes == Bytes(registry)
    }
  }

  /** The objects left once the unmarked ones of a list have been destroyed. */
  ghost function Destroyed(objects: map<Address, Object>, list: seq<Allocation>,
                           marks: set<Address>): map<Address, Object> {
    objects - (Addresses(list) - marks)
  }

  /** The sweep has passed the first `i` nodes of `list`. */
  ghost predicate SweptTo(list: seq<Allocation>, marks: set<Address>, all: map<Address, Object>, i: nat,
                          registry: seq<Allocation>, link: nat, marked: set<Address>, objects: map<Address, Object>,
                          liveObjects: nat, liveBytes: nat)
  {
    && i <= |list| && DistinctAddresses(list)
    && registry == Keep(list[..i], marks) + list[i..] && link == |Keep(list[..i], marks)|
    && marked == marks - Addresses(list[..i])
    && objects == Destroyed(all, list[..i], marks)
    && liveObjects == |registry| && liveBytes == Bytes(registry)
  }

  /** One node further, kept or unlinked. */
  lemma SweepStep(list: seq<Allocation>, marks: set<Address>, all: map<Address, Object>, i: nat,
                  registry: seq<Allocation>, link: nat, marked: set<Address>, objects: map<Address, Object>,
                  liveObjects: nat, liveBytes: nat)
    requires SweptTo(list, marks, all, i, registry, link, marked, objects, liveObjects, liveBytes) && i < |list|
    ensures link < |registry| && registry[link].size <= liveBytes && 0 < liveObjects
    ensures registry[link].address in marked ==>
              SweptTo(list, marks, all, i + 1, registry, link + 1, marked - {registry[link].address}, objects,
                      liveObjects, liveBytes)
    ensures registry[link].address !in marked ==>
              SweptTo(list, marks, all, i + 1, registry[..link] + registry[link + 1..], link, marked,
                      objects - {registry[link].address}, liveObjects - 1, liveBytes - registry[link].size)
  {
    var kept, x := Keep(list[..i], marks), list[i];
    assert registry[link] == x;
    assert registry == kept + [x] + list[i + 1..];
    KeepPrefix(list, i, marks);
    UnlinkBytes(kept, x, list[i + 1..]);
    AddressesPrefix(list, i);
    assert x.address in marked <==> x.address in marks;
    if x.address in marked {
      assert registry == (kept + [x]) + list[i + 1..];
    } else {
      assert registry[..link] + registry[link + 1..] == kept + list[i + 1..];
    }
  }

  lemma AddressesPrefix(list: seq<Allocation>, i: nat)
    requires i < |list| && DistinctAddresses(list)
    ensures Addresses(list[..i + 1]) == Addresses(list[..i]) + {list[i].address}
    ensures list[i].address !in Addresses(list[..i])
  {
    assert list[..i + 1] == list[..i] + [list[i]];
  }

  lemma SweepStart(list: seq<Allocation>, marks: set<Address>, objects: map<Address, Object>)
    requires DistinctAddresses(list)
    ensures SweptTo(list, marks, objects, 0, list, 0, marks, objects, |list|, Bytes(list))
  {
    assert list[..0] == [] && list[0..] == list;
    assert objects - {} == objects;
  }

  lemma SweepEnd(list: seq<Allocation>, marks: set<Address>, all: map<Address, Object>,
                 registry: seq<Allocation>, link: nat, marked: set<Address>, objects: map<Address, Object>,
                 liveObjects: nat, liveBytes: nat)
    requires marks <= Addresses(list) && all.Keys == Addresses(list)
    requires SweptTo(list, marks, all, |list|, registry, link, marked, objects, liveObjects, liveBytes)
    ensures registry == Keep(list, marks) && marked == {}
    ensures objects == Restrict(all, marks)
    ensures liveObjects == |registry| && liveBytes == Bytes(registry)
  {
    assert list[..|list|] == list;
  }

  /** Everything marked is live and reachable, every registered root is marked, and what is marked but no
      longer on the worklist has had its references marked. */
  ghost predicate MarkedSoFar(s: State, marked: set<Address>, worklist: seq<Address>) {
    && (forall a :: a in worklist ==> a in marked)
    && (forall a :: a in marked ==> a in Addresses(s.registry) && a in s.objects && Reachable(s, a))
    && (forall a :: IsRoot(s, a) && a in Addresses(s.registry) ==> a in marked)
    && (forall a :: a in marked && a !in worklist ==> Registered(References(s.objects[a]), s.registry) <= marked)
  }

  lemma FirstIsMarked(s: State, marked: set<Address>, worklist: seq<Address>)
    requires MarkedSoFar(s, marked, worklist) && worklist != []
    ensures worklist[0] in marked && worklist[0] in s.objects
  {
    assert worklist[0] in worklist;
  }

  lemma RootsAreReachable(s: State)
    requires s.objects.Keys == Addresses(s.registry)
    ensures forall a :: a in RegisteredRoots(s) <==> IsRoot(s, a) && a in Addresses(s.registry)
    ensures forall a :: a in RegisteredRoots(s) ==> Reachable(s, a)
  {
    forall a | a in RegisteredRoots(s) ensures IsRoot(s, a) && Reachable(s, a) {
      var f, i :| 0 <= f < |s.frames| && 0 <= i < |s.frames[f].slots| && RootValue(s, s.frames[f].slots[i]) == a;
      assert IsRoot(s, a);
      ReachableFromRoot(s, a);
    }
    forall a | IsRoot(s, a) && a in Addresses(s.registry) ensures a in RegisteredRoots(s) {
      var f, i :| 0 <= f < |s.frames| && 0 <= i < |s.frames[f].slots| && RootValue(s, s.frames[f].slots[i]) == a;
    }
  }

  lemma VisitKeepsMarks(s: State, before: set<Address>, pending: seq<Address>, marked: set<Address>,
                        worklist: seq<Address>)
    requires s.objects.Keys == Addresses(s.registry)
    requires MarkedSoFar(s, before, pending) && pending != []
    requires pending[0] in before
    requires marked == before + Registered(References(s.objects[pending[0]]), s.registry)
    requires forall a :: a in worklist <==> a in pending[1..] || a in marked - before
    ensures MarkedSoFar(s, marked, worklist) && marked <= Addresses(s.registry)
  {
    var first := pending[0];
    assert forall a :: a in pending <==> a == first || a in pending[1..];
    forall a | a in marked ensures a in Addresses(s.registry) && a in s.objects && Reachable(s, a) {
      if a !in before { ReachableFromReference(s, first, a); }
    }
    forall a | a in marked && a !in worklist ensures Registered(References(s.objects[a]), s.registry) <= marked {
      assert a in before;
      if a != first { assert a !in pending; }
    }
  }

  lemma MarkingShrinks(live: set<Address>, before: set<Address>, marked: set<Address>)
    requires before <= marked <= live
    ensures marked == before || live - marked < live - before
  {
    if marked != before {
      assert !(marked <= before);
      var grown :| grown in marked && grown !in before;
      assert grown in live - before && grown !in live - marked;
    }
  }

  lemma MarkedAtEnd(s: State, marked: set<Address>)
    requires MarkedSoFar(s, marked, [])
    ensures marked == ReachableSet(s)
  {
    forall a, b | a in marked && a in s.objects && b in References(s.objects[a]) && b in Addresses(s.registry)
      ensures b in marked
    {
      assert b in Registered(References(s.objects[a]), s.registry);
    }
    forall a | a in ReachableSet(s) ensures a in marked {
      var path :| IsChain(s, path) && path[|path| - 1] == a;
      ClosedHoldsReachable(s, marked, path);
    }
  }

  ghost function RootsUpTo(s: State, n: nat): set<Address>
    requires n <= |s.frames|
  {
    set f, i | 0 <= f < n && 0 <= i < |s.frames[f].slots| && RootValue(s, s.frames[f].slots[i]) in Addresses(s.registry)
      :: RootValue(s, s.frames[f].slots[i])
  }

  ghost function RegisteredRoots(s: State): set<Address> {
    RootsUpTo(s, |s.frames|)
  }

  lemma RootsOfFrame(s: State, f: nat, contents: seq<Address>)
    requires f < |s.frames| && |contents| == |s.frames[f].slots|
    requires forall i :: 0 <= i < |contents| ==> contents[i] == RootValue(s, s.frames[f].slots[i])
    ensures RootsUpTo(s, f + 1) == RootsUpTo(s, f) + Registered(contents, s.registry)
  {
  }

  /** Two allocations ever made in one run have different default hash codes, even when they shared an address. */
  lemma HashCodesAreDistinct(actions: seq<Action>, i: nat, j: nat)
    requires Run(actions).Some? && i < j < |Allocated(actions)|
    ensures MixHash(Allocated(actions)[i].identity) != MixHash(Allocated(actions)[j].identity)
  {
    IdentitiesCountUp(actions);
    RunKeepsInvariant(actions);
    MixHashIsInjective(Allocated(actions)[i].identity, Allocated(actions)[j].identity);
  }
}
