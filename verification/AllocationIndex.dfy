/** The open-addressing index from object address to allocation: linear probing over an array that
    is never more than half full. */
module AllocationIndex {
  import opened Wrappers
  import opened HeapModel
  import opened Bits

  const INITIAL_CAPACITY: nat := 64
  /** Entries of two machine words, within the address space. */
  const MAXIMUM_CAPACITY: nat := MAX_UINT64 / 16

  type Entry = Option<Allocation>

  function HashObject(a: Address): nat {
    var mixed := Xor(a, Shr(a, 4)) * 0x9e3779b1 % 0x1_0000_0000_0000_0000;
    Xor(mixed, Shr(mixed, 16))
  }

  /** The home slot of an address: its hash brought below the capacity. */
  function Home(a: Address, capacity: nat): (slot: nat)
    requires capacity > 0
    ensures slot < capacity
  {
    Reduced(HashObject(a), capacity)
  }

  function Reduced(value: nat, capacity: nat): (slot: nat)
    requires capacity > 0
    ensures slot < capacity
  {
    if value < capacity then value else Reduced(value - capacity, capacity)
  }

  /** For the powers of two that capacities are, bringing a number below one is masking it. */
  lemma {:induction false} ReducedIsMask(value: nat, capacity: nat)
    requires PowerOfTwo(capacity)
    ensures Reduced(value, capacity) == And(value, capacity - 1)
    decreases capacity
  {
    if capacity == 1 {
      ReducedToNothing(value);
    } else {
      var half := capacity / 2;
      ReducedIsMask(value / 2, half);
      ReducedDoubles(value, half);
      MaskDoubles(value, half);
    }
  }

  lemma {:induction false} ReducedToNothing(value: nat)
    ensures Reduced(value, 1) == 0
  {
    if value > 0 { ReducedToNothing(value - 1); }
  }

  lemma {:induction false} ReducedDoubles(value: nat, half: nat)
    requires half > 0
    ensures Reduced(value, 2 * half) == value % 2 + 2 * Reduced(value / 2, half)
  {
    if value >= 2 * half { ReducedDoubles(value - 2 * half, half); }
  }

  lemma MaskDoubles(value: nat, half: nat)
    requires half > 0
    ensures And(value, 2 * half - 1) == value % 2 + 2 * And(value / 2, half - 1)
  {
    assert (2 * half - 1) % 2 == 1 && (2 * half - 1) / 2 == half - 1;
  }

  /** Home and next slot are the runtime's masked ones. */
  lemma SlotsAreMasked(a: Address, slot: nat, capacity: nat)
    requires PowerOfTwo(capacity) && slot < capacity
    ensures Home(a, capacity) == And(HashObject(a), capacity - 1)
    ensures Next(slot, capacity) == And(slot + 1, capacity - 1)
  {
    ReducedIsMask(HashObject(a), capacity);
    ReducedIsMask(slot + 1, capacity);
  }

  function Next(slot: nat, capacity: nat): (next: nat)
    requires slot < capacity
    ensures next < capacity
  {
    if slot + 1 == capacity then 0 else slot + 1
  }

  /** The slot reached after `d` probes from `start`. */
  function At(start: nat, d: nat, capacity: nat): (slot: nat)
    requires start < capacity && d < capacity
    ensures slot < capacity
  {
    if start + d < capacity then start + d else start + d - capacity
  }

  /** `x` is found after `d` probes, and no probe before meets an empty slot. */
  ghost predicate Placed(index: seq<Entry>, x: Allocation, d: nat) {
    && d < |index|
    && index[At(Home(x.address, |index|), d, |index|)] == Some(x)
    && forall e :: 0 <= e < d ==> index[At(Home(x.address, |index|), e, |index|)].Some?
  }

  /** The index holds exactly the allocations of `live`, once each, all of them findable. */
  ghost predicate Represents(index: seq<Entry>, live: set<Allocation>) {
    && (forall i :: 0 <= i < |index| && index[i].Some? ==> index[i].value in live)
    && (forall i, j :: 0 <= i < j < |index| && index[i].Some? ==> index[i] != index[j])
    && (forall x :: x in live ==> exists d :: Placed(index, x, d))
  }

  ghost predicate OnePerAddress(live: set<Allocation>) {
    forall x, y :: x in live && y in live && x.address == y.address ==> x == y
  }

  lemma {:induction false} FullIndexCount(index: seq<Entry>, live: set<Allocation>)
    requires forall i :: 0 <= i < |index| ==> index[i].Some? && index[i].value in live
    requires forall i, j :: 0 <= i < j < |index| ==> index[i] != index[j]
    ensures |index| <= |live|
  {
    if index != [] {
      var last := index[|index| - 1].value;
      var rest := index[..|index| - 1];
      FullIndexCount(rest, live - {last});
    }
  }

  /** Fewer allocations than slots leave an empty slot, so every probe sequence ends. */
  lemma HasEmptySlot(index: seq<Entry>, live: set<Allocation>) returns (i: nat)
    requires Represents(index, live) && |live| < |index|
    ensures i < |index| && index[i].None?
  {
    if forall k :: 0 <= k < |index| ==> index[k].Some? {
      FullIndexCount(index, live);
      assert false;
    }
    i :| 0 <= i < |index| && index[i].None?;
  }

  function Distance(start: nat, slot: nat, capacity: nat): (d: nat)
    requires start < capacity && slot < capacity
    ensures d < capacity && At(start, d, capacity) == slot
  {
    if start <= slot then slot - start else slot + capacity - start
  }

  lemma FoundBefore(index: seq<Entry>, live: set<Allocation>, x: Allocation, d: nat)
    requires Represents(index, live) && x in live && d < |index|
    requires forall e :: 0 <= e < d ==> index[At(Home(x.address, |index|), e, |index|)] != Some(x)
    ensures index[At(Home(x.address, |index|), d, |index|)].Some?
  {
    var k :| Placed(index, x, k);
  }

  /** The probe loop of a lookup: it stops at the first slot that is empty or holds `p`. */
  method ProbeFor(index: array<Entry>, start: nat, p: Address, ghost empty: nat) returns (slot: nat, ghost d: nat)
    requires start < index.Length && empty < index.Length && index[empty].None?
    ensures d < index.Length && slot == At(start, d, index.Length)
    ensures index[slot].None? || index[slot].value.address == p
    ensures forall e :: 0 <= e < d ==> OtherEntry(index[At(start, e, index.Length)], p)
  {
    ghost var limit := Distance(start, empty, index.Length);
    slot, d := start, 0;
    while index[slot].Some? && index[slot].value.address != p
      invariant d <= limit && slot == At(start, d, index.Length)
      invariant forall e :: 0 <= e < d ==> OtherEntry(index[At(start, e, index.Length)], p)
      decreases limit - d
    {
      slot := Next(slot, index.Length);
      d := d + 1;
    }
  }

  predicate OtherEntry(entry: Entry, p: Address) {
    entry.Some? && entry.value.address != p
  }

  method Find(index: array<Entry>, p: Address, ghost live: set<Allocation>) returns (r: Option<Allocation>)
    requires OnePerAddress(live) && (forall x :: x in live ==> x.address != 0)
    requires Represents(index[..], live) && (|live| < index.Length || live == {})
    ensures r.Some? ==> r.value in live && r.value.address == p
    ensures r.None? ==> forall x :: x in live ==> x.address != p
  {
    if p == 0 || index.Length == 0 {
      return None;
    }
    ghost var empty := HasEmptySlot(index[..], live);
    var slot, d := ProbeFor(index, Home(p, index.Length), p, empty);
    forall x | x in live && index[slot].None? ensures x.address != p {
      if x.address == p { FoundBefore(index[..], live, x, d); }
    }
    return index[slot];
  }

  /** The probe loop of an insertion: it stops at the first empty slot. */
  method ProbeEmpty(index: array<Entry>, start: nat, ghost empty: nat) returns (slot: nat, ghost d: nat)
    requires start < index.Length && empty < index.Length && index[empty].None?
    ensures d < index.Length && slot == At(start, d, index.Length) && index[slot].None?
    ensures forall e :: 0 <= e < d ==> index[At(start, e, index.Length)].Some?
  {
    ghost var limit := Distance(start, empty, index.Length);
    slot, d := start, 0;
    while index[slot].Some?
      invariant d <= limit && slot == At(start, d, index.Length)
      invariant forall e :: 0 <= e < d ==> index[At(start, e, index.Length)].Some?
      decreases limit - d
    {
      slot := Next(slot, index.Length);
      d := d + 1;
    }
  }

  method Insert(index: array<Entry>, x: Allocation, ghost live: set<Allocation>)
    requires Represents(index[..], live) && |live| < index.Length
    requires x !in live
    modifies index
    ensures Represents(index[..], live + {x})
  {
    ghost var before := index[..];
    ghost var empty := HasEmptySlot(before, live);
    var slot, d := ProbeEmpty(index, Home(x.address, index.Length), empty);
    InsertedRepresents(before, live, x, d);
    index[slot] := Some(x);
    assert index[..] == before[slot := Some(x)];
  }

  lemma InsertedRepresents(index: seq<Entry>, live: set<Allocation>, x: Allocation, d: nat)
    requires Represents(index, live) && x !in live && d < |index|
    requires index[At(Home(x.address, |index|), d, |index|)].None?
    requires forall e :: 0 <= e < d ==> index[At(Home(x.address, |index|), e, |index|)].Some?
    ensures Represents(index[At(Home(x.address, |index|), d, |index|) := Some(x)], live + {x})
  {
    var after := index[At(Home(x.address, |index|), d, |index|) := Some(x)];
    forall y | y in live + {x} ensures exists k :: Placed(after, y, k) {
      if y == x {
        AtIsInjective(Home(x.address, |index|), d, |index|);
        assert Placed(after, x, d);
      } else {
        var k :| Placed(index, y, k);
        assert Placed(after, y, k);
      }
    }
  }

  lemma AtIsInjective(start: nat, d: nat, capacity: nat)
    requires start < capacity && d < capacity
    ensures forall e :: 0 <= e < d ==> At(start, e, capacity) != At(start, d, capacity)
  {
  }

  lemma EmptyRepresents(index: seq<Entry>)
    requires forall i :: 0 <= i < |index| ==> index[i].None?
    ensures Represents(index, {})
  {
  }

  function LiveSet(registry: seq<Allocation>): set<Allocation> {
    set x | x in registry
  }

  lemma {:induction false} LiveSetSize(registry: seq<Allocation>)
    ensures |LiveSet(registry)| <= |registry|
  {
    if registry != [] {
      LiveSetSize(registry[1..]);
      assert LiveSet(registry) == {registry[0]} + LiveSet(registry[1..]);
    }
  }

  lemma LiveSetPrefix(registry: seq<Allocation>, k: nat)
    requires k < |registry|
    ensures LiveSet(registry[..k + 1]) == LiveSet(registry[..k]) + {registry[k]}
  {
    assert registry[..k + 1] == registry[..k] + [registry[k]];
  }

  lemma NotInPrefix(registry: seq<Allocation>, k: nat)
    requires DistinctAddresses(registry) && k < |registry|
    ensures registry[k] !in LiveSet(registry[..k])
  {
  }

  /** Inserting every allocation of the registry into an empty array, head of the list first. */
  method FillIndex(index: array<Entry>, registry: seq<Allocation>)
    requires forall i :: 0 <= i < index.Length ==> index[i].None?
    requires 2 * |registry| <= index.Length && DistinctAddresses(registry)
    modifies index
    ensures Represents(index[..], LiveSet(registry))
  {
    EmptyRepresents(index[..]);
    assert LiveSet(registry[..0]) == {};
    for k := 0 to |registry|
      invariant Represents(index[..], LiveSet(registry[..k]))
    {
      LiveSetSize(registry[..k]);
      NotInPrefix(registry, k);
      Insert(index, registry[k], LiveSet(registry[..k]));
      LiveSetPrefix(registry, k);
    }
    assert registry[..|registry|] == registry;
  }

  /** The capacity after room for `required` entries at half load has been made; none when it would be too large. */
  method GrownCapacity(capacity: nat, required: nat) returns (grown: Option<nat>)
    requires capacity == 0 || (PowerOfTwo(capacity) && INITIAL_CAPACITY <= capacity)
    requires required > capacity / 2
    ensures grown.Some? ==> PowerOfTwo(grown.value) && INITIAL_CAPACITY <= grown.value && 2 * required <= grown.value
    ensures grown.Some? ==> grown.value == INITIAL_CAPACITY || grown.value < 4 * required
    ensures grown.None? ==> 2 * required > MAXIMUM_CAPACITY / 2
  {
    var c := if capacity < INITIAL_CAPACITY then INITIAL_CAPACITY else capacity;
    while required > c / 2
      invariant PowerOfTwo(c) && INITIAL_CAPACITY <= c
      invariant c == INITIAL_CAPACITY || c < 4 * required
      decreases 2 * required - c
    {
      if c > MAXIMUM_CAPACITY / 2 {
        return None;
      }
      c := c * 2;
    }
    return Some(c);
  }
}
