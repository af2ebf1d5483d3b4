/** The managed heap as a state machine: objects, root frames, the allocation registry and its
    accounting, and what every run keeps. */
module HeapModel {
  import opened Wrappers

  /** Zero is the null reference. */
  type Address = nat
  type SlotId = nat

  const MAX_UINT64: nat := 0xffff_ffff_ffff_ffff
  const INITIAL_THRESHOLD: nat := 64 * 1024

  datatype InstanceKind = FileClass | Error | ValueBox

  /** An object with the memory words its reference map may select. A string holds no references. */
  datatype Object =
    | Instance(kind: InstanceKind, offsets: seq<nat>, words: map<nat, Address>)
    | String
    | Array(elementSize: nat, offsets: seq<nat>, length: nat, words: map<nat, Address>)

  datatype Allocation = Allocation(address: Address, size: nat, identity: nat)

  /** A root frame: the address of its record and its slots. */
  datatype Frame = Frame(address: Address, slots: seq<SlotId>)

  /** `registry` lists the live allocations, newest first; `frames` the active root frames, innermost
      first; `roots` the current contents of every slot. */
  datatype State = State(registry: seq<Allocation>, objects: map<Address, Object>,
                         roots: map<SlotId, Address>, frames: seq<Frame>,
                         collections: nat, peak: nat, threshold: nat, nextIdentity: nat)

  const INITIAL: State := State([], map[], map[], [], 0, 0, INITIAL_THRESHOLD, 1)

  // ----- references -----

  function Word(words: map<nat, Address>, offset: nat): Address {
    if offset in words then words[offset] else 0
  }

  function ReadWords(words: map<nat, Address>, offsets: seq<nat>, base: nat): seq<Address> {
    seq(|offsets|, i requires 0 <= i < |offsets| => Word(words, base + offsets[i]))
  }

  function ElementWords(words: map<nat, Address>, offsets: seq<nat>, elementSize: nat, count: nat): seq<Address> {
    if count == 0 then []
    else ElementWords(words, offsets, elementSize, count - 1) + ReadWords(words, offsets, (count - 1) * elementSize)
  }

  /** What the reference map of an object selects, in the order the collector visits it. */
  function References(o: Object): seq<Address> {
    match o
    case Instance(_, offsets, words) => ReadWords(words, offsets, 0)
    case String => []
    case Array(elementSize, offsets, length, words) => ElementWords(words, offsets, elementSize, length)
  }

  /** Where an offset of an element's reference map stands in the array. */
  function ElementSlot(elementSize: nat, i: nat, offset: nat): nat {
    i * elementSize + offset
  }

  /** The object's reference map selects the word at the offset: in an array, one of each element's. */
  ghost predicate IsReference(o: Object, offset: nat) {
    match o
    case Instance(_, offsets, _) => offset in offsets
    case String => false
    case Array(elementSize, offsets, length, _) =>
      exists i: nat, k: nat :: i < length && k < |offsets| && offset == ElementSlot(elementSize, i, offsets[k])
  }

  function WordAt(o: Object, offset: nat): Address {
    match o
    case Instance(_, _, words) => Word(words, offset)
    case String => 0
    case Array(_, _, _, words) => Word(words, offset)
  }

  /** An object refers to exactly what stands in the words that its reference map selects. */
  lemma ReferencesAreSlots(o: Object, b: Address)
    ensures b in References(o) <==> exists offset: nat :: IsReference(o, offset) && WordAt(o, offset) == b
  {
    match o
    case Instance(_, offsets, words) =>
      WordIsRead(words, offsets, 0, b);
      if k: nat :| k < |offsets| && Word(words, 0 + offsets[k]) == b {
        assert IsReference(o, offsets[k]) && WordAt(o, offsets[k]) == b;
      }
      if offset: nat :| IsReference(o, offset) && WordAt(o, offset) == b {
        var k :| 0 <= k < |offsets| && offsets[k] == offset;
        assert Word(words, 0 + offsets[k]) == b;
      }
    case String =>
    case Array(elementSize, offsets, length, words) =>
      ElementIsRead(words, offsets, elementSize, length, b);
      if i: nat, k: nat :| i < length && k < |offsets| && Word(words, ElementSlot(elementSize, i, offsets[k])) == b {
        var slot := ElementSlot(elementSize, i, offsets[k]);
        assert IsReference(o, slot) && WordAt(o, slot) == b;
      }
      if offset: nat :| IsReference(o, offset) && WordAt(o, offset) == b {
        var i: nat, k: nat :| i < length && k < |offsets| && offset == ElementSlot(elementSize, i, offsets[k]);
        assert Word(words, ElementSlot(elementSize, i, offsets[k])) == b;
      }
  }

  lemma WordIsRead(words: map<nat, Address>, offsets: seq<nat>, base: nat, b: Address)
    ensures b in ReadWords(words, offsets, base) <==>
              exists k: nat :: k < |offsets| && Word(words, base + offsets[k]) == b
  {
    var read := ReadWords(words, offsets, base);
    assert |read| == |offsets| && forall k :: 0 <= k < |offsets| ==> read[k] == Word(words, base + offsets[k]);
  }

  lemma {:induction false} ElementIsRead(words: map<nat, Address>, offsets: seq<nat>, elementSize: nat, count: nat,
                                         b: Address)
    ensures b in ElementWords(words, offsets, elementSize, count) <==>
              exists i: nat, k: nat ::
                i < count && k < |offsets| && Word(words, ElementSlot(elementSize, i, offsets[k])) == b
  {
    if count > 0 {
      ElementIsRead(words, offsets, elementSize, count - 1, b);
      WordIsRead(words, offsets, (count - 1) * elementSize, b);
      if k: nat :| k < |offsets| && Word(words, (count - 1) * elementSize + offsets[k]) == b {
        var i := count - 1;
        assert Word(words, ElementSlot(elementSize, i, offsets[k])) == b;
      }
    }
  }

  function Addresses(registry: seq<Allocation>): set<Address> {
    set x | x in registry :: x.address
  }

  function RootValue(s: State, slot: SlotId): Address {
    if slot in s.roots then s.roots[slot] else 0
  }

  ghost predicate IsRoot(s: State, a: Address) {
    exists f, i :: 0 <= f < |s.frames| && 0 <= i < |s.frames[f].slots| && RootValue(s, s.frames[f].slots[i]) == a
  }

  /** A chain of live objects from a root to the last element, each referring to the next. */
  ghost predicate IsChain(s: State, path: seq<Address>) {
    && |path| > 0
    && IsRoot(s, path[0])
    && (forall k :: 0 <= k < |path| ==> path[k] in Addresses(s.registry) && path[k] in s.objects)
    && (forall k :: 0 <= k < |path| - 1 ==> path[k + 1] in References(s.objects[path[k]]))
  }

  ghost predicate Reachable(s: State, a: Address) {
    exists path :: IsChain(s, path) && path[|path| - 1] == a
  }

  ghost function ReachableSet(s: State): set<Address> {
    set a | a in Addresses(s.registry) && Reachable(s, a)
  }

  lemma ReachableFromRoot(s: State, a: Address)
    requires IsRoot(s, a) && a in Addresses(s.registry) && a in s.objects
    ensures Reachable(s, a)
  {
    assert IsChain(s, [a]) && [a][|[a]| - 1] == a;
  }

  lemma ReachableFromReference(s: State, a: Address, b: Address)
    requires Reachable(s, a) && a in s.objects && b in References(s.objects[a])
    requires b in Addresses(s.registry) && b in s.objects
    ensures Reachable(s, b)
  {
    var path :| IsChain(s, path) && path[|path| - 1] == a;
    var longer := path + [b];
    assert forall k :: 0 <= k < |path| ==> longer[k] == path[k];
    assert IsChain(s, longer) && longer[|longer| - 1] == b;
  }

  /** Whatever holds the registered roots and is closed under references holds everything reachable. */
  lemma {:induction false} ClosedHoldsReachable(s: State, marked: set<Address>, path: seq<Address>)
    requires forall a :: IsRoot(s, a) && a in Addresses(s.registry) ==> a in marked
    requires forall a, b ::
            a in marked && a in s.objects && b in References(s.objects[a]) && b in Addresses(s.registry) ==> b in marked
    requires IsChain(s, path)
    ensures path[|path| - 1] in marked
    decreases |path|
  {
    if |path| > 1 {
      var shorter := path[..|path| - 1];
      assert IsChain(s, shorter);
      ClosedHoldsReachable(s, marked, shorter);
      assert path[|path| - 1] in References(s.objects[shorter[|shorter| - 1]]);
    }
  }

  // ----- sizes and sweeping -----

  function Bytes(registry: seq<Allocation>): nat {
    if registry == [] then 0 else registry[0].size + Bytes(registry[1..])
  }

  /** The allocations of the given addresses, in registry order. */
  function Keep(registry: seq<Allocation>, kept: set<Address>): (r: seq<Allocation>)
    ensures |r| <= |registry|
  {
    if registry == [] then []
    else if registry[0].address in kept then [registry[0]] + Keep(registry[1..], kept)
    else Keep(registry[1..], kept)
  }

  ghost predicate DistinctAddresses(registry: seq<Allocation>) {
    forall i, j :: 0 <= i < j < |registry| ==> registry[i].address != registry[j].address
  }

  lemma {:induction false} KeepMembers(registry: seq<Allocation>, kept: set<Address>)
    ensures forall x :: x in Keep(registry, kept) <==> x in registry && x.address in kept
  {
    if registry != [] {
      KeepMembers(registry[1..], kept);
      assert registry == [registry[0]] + registry[1..];
    }
  }

  lemma KeepAddresses(registry: seq<Allocation>, kept: set<Address>)
    ensures Addresses(Keep(registry, kept)) == Addresses(registry) * kept
  {
    KeepMembers(registry, kept);
    forall a | a in Addresses(registry) * kept ensures a in Addresses(Keep(registry, kept)) {
      var x :| x in registry && x.address == a;
      assert x in Keep(registry, kept);
    }
  }

  lemma {:induction false} KeepDistinct(registry: seq<Allocation>, kept: set<Address>)
    requires DistinctAddresses(registry)
    ensures DistinctAddresses(Keep(registry, kept))
  {
    if registry != [] {
      var rest := registry[1..];
      KeepDistinct(rest, kept);
      KeepMembers(rest, kept);
      forall x | x in Keep(rest, kept) ensures x.address != registry[0].address {
        var i :| 0 <= i < |rest| && rest[i] == x;
        assert registry[i + 1] == x;
      }
    }
  }

  lemma {:induction false} KeepBytes(registry: seq<Allocation>, kept: set<Address>)
    ensures Bytes(Keep(registry, kept)) <= Bytes(registry)
  {
    if registry != [] {
      KeepBytes(registry[1..], kept);
      if registry[0].address in kept {
        assert Keep(registry, kept)[1..] == Keep(registry[1..], kept);
      }
    }
  }

  // ----- steps -----

  function SaturatingDouble(value: nat): nat {
    if value > MAX_UINT64 / 2 then MAX_UINT64 else value * 2
  }

  lemma DoubleIsCapped(value: nat)
    requires value <= MAX_UINT64
    ensures SaturatingDouble(value) == if value + value <= MAX_UINT64 then value + value else MAX_UINT64
  {
  }

  function Restrict(objects: map<Address, Object>, kept: set<Address>): map<Address, Object> {
    map a | a in objects && a in kept :: objects[a]
  }

  /** Everything unreachable leaves the registry; the threshold follows what is left. */
  ghost function Collect(s: State): State {
    var kept := ReachableSet(s);
    var registry := Keep(s.registry, kept);
    s.(registry := registry,
       objects := Restrict(s.objects, kept),
       collections := if s.collections == MAX_UINT64 then s.collections else s.collections + 1,
       threshold := Max(INITIAL_THRESHOLD, SaturatingDouble(Bytes(registry))))
  }

  /** Room for `size` more bytes, collecting when the threshold would be passed; none when the count overflows. */
  ghost function CollectBeforeAllocation(s: State, size: nat): Option<State> {
    if size + Bytes(s.registry) > MAX_UINT64 then None
    else if Bytes(s.registry) + size <= s.threshold then Some(s)
    else
      var collected := Collect(s);
      var after := Bytes(collected.registry) + size;
      if after > collected.threshold
      then Some(collected.(threshold := Max(INITIAL_THRESHOLD, SaturatingDouble(after))))
      else Some(collected)
  }

  ghost function Register(s: State, address: Address, size: nat, o: Object): Option<State> {
    if |s.registry| == MAX_UINT64 || s.nextIdentity == MAX_UINT64 then None
    else
      var registry := [Allocation(address, size, s.nextIdentity)] + s.registry;
      Some(s.(registry := registry, objects := s.objects[address := o],
              nextIdentity := s.nextIdentity + 1, peak := Max(s.peak, Bytes(registry))))
  }

  /** `address` is what the system allocator returns: not null, and not the address of a live object. */
  datatype Action =
    | Allocate(address: Address, size: nat, object': Object)
    | WriteWord(address: Address, offset: nat, value: Address)
    | WriteRoot(slot: SlotId, value: Address)
    | PushFrame(frame: Address, hasTable: bool, slots: seq<SlotId>)
    | PopFrame(frame: Address)
    | RunCollector

  function Update(o: Object, offset: nat, value: Address): Object {
    match o
    case Instance(kind, offsets, words) => Instance(kind, offsets, words[offset := value])
    case String => String
    case Array(elementSize, offsets, length, words) => Array(elementSize, offsets, length, words[offset := value])
  }

  predicate IsTop(frames: seq<Frame>, frame: Address) {
    frames != [] && frames[0].address == frame
  }

  predicate IsActive(frames: seq<Frame>, frame: Address) {
    exists f :: 0 <= f < |frames| && frames[f].address == frame
  }

  /** One step; none when the runtime stops the program, when the allocator breaks its
      promise, or when a frame is pushed that is active below the top, which the runtime does not notice. */
  ghost function Step(s: State, action: Action): Option<State> {
    match action
    case Allocate(address, size, o) =>
      var room := CollectBeforeAllocation(s, size);
      if room.None? || address == 0 || address in Addresses(room.value.registry) then None
      else Register(room.value, address, size, o)
    case WriteWord(address, offset, value) =>
      if address in s.objects then Some(s.(objects := s.objects[address := Update(s.objects[address], offset, value)]))
      else None
    case WriteRoot(slot, value) => Some(s.(roots := s.roots[slot := value]))
    case PushFrame(frame, hasTable, slots) =>
      if frame == 0 || hasTable != (slots != []) || 0 in slots || IsActive(s.frames, frame) then None
      else Some(s.(frames := [Frame(frame, slots)] + s.frames))
    case PopFrame(frame) => if frame == 0 || !IsTop(s.frames, frame) then None else Some(s.(frames := s.frames[1..]))
    case RunCollector => Some(Collect(s))
  }

  ghost function Run(actions: seq<Action>): Option<State> {
    if actions == [] then Some(INITIAL)
    else
      var before := Run(actions[..|actions| - 1]);
      if before.None? then None else Step(before.value, actions[|actions| - 1])
  }

  // ----- what every run keeps -----

  ghost predicate DistinctIdentities(registry: seq<Allocation>) {
    forall i, j :: 0 <= i < j < |registry| ==> registry[j].identity < registry[i].identity
  }

  ghost predicate Invariant(s: State) {
    && DistinctAddresses(s.registry)
    && DistinctIdentities(s.registry)
    && (forall x :: x in s.registry ==> 0 < x.identity < s.nextIdentity && x.address != 0)
    && s.objects.Keys == Addresses(s.registry)
    && Bytes(s.registry) <= s.threshold
    && Bytes(s.registry) <= s.peak
    && s.threshold <= MAX_UINT64 && INITIAL_THRESHOLD <= s.threshold
    && |s.registry| <= MAX_UINT64 && 0 < s.nextIdentity <= MAX_UINT64
  }

  lemma {:induction false} KeepIdentities(registry: seq<Allocation>, kept: set<Address>)
    requires DistinctIdentities(registry)
    ensures DistinctIdentities(Keep(registry, kept))
  {
    if registry != [] {
      var rest := registry[1..];
      RestIdentities(registry);
      KeepIdentities(rest, kept);
      KeepMembers(rest, kept);
      if registry[0].address in kept {
        ConsIdentities(registry[0], Keep(rest, kept));
      }
    }
  }

  lemma RestIdentities(registry: seq<Allocation>)
    requires DistinctIdentities(registry) && registry != []
    ensures DistinctIdentities(registry[1..]) && forall y :: y in registry[1..] ==> y.identity < registry[0].identity
  {
    var rest := registry[1..];
    assert forall i :: 0 <= i < |rest| ==> rest[i] == registry[i + 1];
  }

  lemma ConsIdentities(x: Allocation, registry: seq<Allocation>)
    requires DistinctIdentities(registry) && forall y :: y in registry ==> y.identity < x.identity
    ensures DistinctIdentities([x] + registry)
  {
    var r := [x] + registry;
    forall i, j | 0 <= i < j < |r| ensures r[j].identity < r[i].identity {
      assert r[j] == registry[j - 1] && registry[j - 1] in registry;
    }
  }

  lemma CollectKeepsInvariant(s: State)
    requires Invariant(s)
    ensures Invariant(Collect(s))
    ensures Bytes(Collect(s).registry) <= Bytes(s.registry)
  {
    var kept := ReachableSet(s);
    KeepMembers(s.registry, kept);
    KeepAddresses(s.registry, kept);
    KeepDistinct(s.registry, kept);
    KeepBytes(s.registry, kept);
    KeepIdentities(s.registry, kept);
    assert Collect(s).objects.Keys == Addresses(s.registry) * kept;
  }

  lemma RegisterKeepsInvariant(s: State, address: Address, size: nat, o: Object)
    requires Invariant(s) && Bytes(s.registry) + size <= s.threshold
    requires address != 0 && address !in Addresses(s.registry)
    requires Register(s, address, size, o).Some?
    ensures Invariant(Register(s, address, size, o).value)
  {
    var x := Allocation(address, size, s.nextIdentity);
    var registry := [x] + s.registry;
    ConsMembers(x, s.registry);
    ConsKeepsOrder(x, s.registry);
    assert Register(s, address, size, o).value.registry == registry;
  }

  lemma ConsMembers(x: Allocation, registry: seq<Allocation>)
    ensures forall y :: y in [x] + registry <==> y == x || y in registry
    ensures Addresses([x] + registry) == {x.address} + Addresses(registry)
    ensures Bytes([x] + registry) == x.size + Bytes(registry)
  {
    assert ([x] + registry)[1..] == registry;
  }

  lemma ConsKeepsOrder(x: Allocation, registry: seq<Allocation>)
    requires DistinctAddresses(registry) && DistinctIdentities(registry)
    requires x.address !in Addresses(registry)
    requires forall y :: y in registry ==> y.identity < x.identity
    ensures DistinctAddresses([x] + registry) && DistinctIdentities([x] + registry)
  {
  }

  lemma RoomKeepsInvariant(s: State, size: nat)
    requires Invariant(s) && CollectBeforeAllocation(s, size).Some?
    ensures var room := CollectBeforeAllocation(s, size).value;
            Invariant(room) && Bytes(room.registry) + size <= room.threshold
  {
    CollectKeepsInvariant(s);
  }

  lemma StepKeepsInvariant(s: State, action: Action)
    requires Invariant(s) && Step(s, action).Some?
    ensures Invariant(Step(s, action).value)
  {
    match action
    case Allocate(address, size, o) =>
      RoomKeepsInvariant(s, size);
      RegisterKeepsInvariant(CollectBeforeAllocation(s, size).value, address, size, o);
    case RunCollector => CollectKeepsInvariant(s);
    case _ =>
  }

  lemma {:induction false} RunKeepsInvariant(actions: seq<Action>)
    requires Run(actions).Some?
    ensures Invariant(Run(actions).value)
  {
    if actions != [] {
      RunKeepsInvariant(actions[..|actions| - 1]);
      StepKeepsInvariant(Run(actions[..|actions| - 1]).value, actions[|actions| - 1]);
    }
  }

  /** The largest number of live bytes any state of the run held. */
  ghost function LargestLive(actions: seq<Action>): nat
    requires Run(actions).Some?
  {
    if actions == [] then 0
    else Max(LargestLive(actions[..|actions| - 1]), Bytes(Run(actions).value.registry))
  }

  lemma {:induction false} PeakIsLargestLive(actions: seq<Action>)
    requires Run(actions).Some?
    ensures Run(actions).value.peak == LargestLive(actions)
  {
    if actions != [] {
      var before := actions[..|actions| - 1];
      PeakIsLargestLive(before);
      RunKeepsInvariant(before);
      RunKeepsInvariant(actions);
      StepMovesPeak(Run(before).value, actions[|actions| - 1]);
    }
  }

  lemma StepMovesPeak(s: State, action: Action)
    requires Invariant(s) && Step(s, action).Some?
    ensures Step(s, action).value.peak == Max(s.peak, Bytes(Step(s, action).value.registry))
  {
    StepKeepsInvariant(s, action);
    match action
    case Allocate(address, size, o) => RoomKeepsInvariant(s, size);
    case RunCollector => CollectKeepsInvariant(s);
    case _ =>
  }

  /** What the last collection of a run left alive, plus the request that set it off (none for an explicit one). */
  ghost function Budget(actions: seq<Action>): nat
    requires Run(actions).Some?
  {
    if actions == [] then 0
    else NextBudget(Run(actions[..|actions| - 1]).value, Budget(actions[..|actions| - 1]), actions[|actions| - 1])
  }

  ghost function NextBudget(s: State, budget: nat, action: Action): nat {
    match action
    case RunCollector => Bytes(Collect(s).registry)
    case Allocate(_, size, _) =>
      if Bytes(s.registry) + size <= s.threshold then budget else Bytes(Collect(s).registry) + size
    case _ => budget
  }

  /** Live bytes stay within the larger of 64 KiB and twice the budget of the last collection. */
  lemma {:induction false} LiveBytesAreBounded(actions: seq<Action>)
    requires Run(actions).Some?
    ensures Bytes(Run(actions).value.registry) <= Run(actions).value.threshold
         <= Max(INITIAL_THRESHOLD, 2 * Budget(actions))
  {
    RunKeepsInvariant(actions);
    if actions != [] {
      var before := actions[..|actions| - 1];
      LiveBytesAreBounded(before);
      StepMovesThreshold(Run(before).value, Budget(before), actions[|actions| - 1]);
    }
  }

  lemma StepMovesThreshold(s: State, budget: nat, action: Action)
    requires Step(s, action).Some? && s.threshold <= Max(INITIAL_THRESHOLD, 2 * budget)
    ensures Step(s, action).value.threshold <= Max(INITIAL_THRESHOLD, 2 * NextBudget(s, budget, action))
  {
  }

  // ----- identities -----

  /** Every allocation the run made, oldest first, whether or not it is still alive. */
  ghost function Allocated(actions: seq<Action>): seq<Allocation>
    requires Run(actions).Some?
  {
    if actions == [] then []
    else
      var before, action := actions[..|actions| - 1], actions[|actions| - 1];
      if action.Allocate?
      then Allocated(before) + [Allocation(action.address, action.size, Run(before).value.nextIdentity)]
      else Allocated(before)
  }

  lemma {:induction false} IdentitiesCountUp(actions: seq<Action>)
    requires Run(actions).Some?
    ensures Run(actions).value.nextIdentity == |Allocated(actions)| + 1
    ensures forall k :: 0 <= k < |Allocated(actions)| ==> Allocated(actions)[k].identity == k + 1
    ensures forall x :: x in Run(actions).value.registry ==> x in Allocated(actions)
  {
    if actions != [] {
      var before, action := actions[..|actions| - 1], actions[|actions| - 1];
      IdentitiesCountUp(before);
      var s := Run(before).value;
      forall x | x in Run(actions).value.registry ensures x in Allocated(actions) {
        StepRegistry(s, action, x);
        assert action.Allocate? ==>
            Allocated(actions)[|Allocated(before)|] == Allocation(action.address, action.size, s.nextIdentity);
      }
    }
  }

  lemma StepRegistry(s: State, action: Action, x: Allocation)
    requires Step(s, action).Some? && x in Step(s, action).value.registry
    ensures x in s.registry || (action.Allocate? && x == Allocation(action.address, action.size, s.nextIdentity))
  {
    KeepMembers(s.registry, ReachableSet(s));
  }

  // ----- what collection does to objects -----

  lemma CollectKeepsReachable(s: State, path: seq<Address>)
    requires Invariant(s) && IsChain(s, path)
    ensures IsChain(Collect(s), path)
  {
    KeepAddresses(s.registry, ReachableSet(s));
    forall k | 0 <= k < |path| ensures path[k] in ReachableSet(s) {
      PrefixIsChain(s, path, k);
    }
    var after := Collect(s);
    assert IsRoot(after, path[0]) by {
      var f, i :| 0 <= f < |s.frames| && 0 <= i < |s.frames[f].slots| && RootValue(s, s.frames[f].slots[i]) == path[0];
      assert RootValue(after, after.frames[f].slots[i]) == path[0];
    }
  }

  lemma PrefixIsChain(s: State, path: seq<Address>, k: nat)
    requires IsChain(s, path) && k < |path|
    ensures Reachable(s, path[k])
  {
    var prefix := path[..k + 1];
    assert IsChain(s, prefix) && prefix[|prefix| - 1] == path[k];
  }

  /** A collection frees exactly the unreachable: survivors keep their record, contents and order,
      and everything that survives is reachable afterwards. */
  lemma CollectIsPrecise(s: State, x: Allocation)
    requires Invariant(s)
    ensures x in Collect(s).registry <==> x in s.registry && Reachable(s, x.address)
    ensures x in Collect(s).registry ==>
              && x.address in Collect(s).objects && Collect(s).objects[x.address] == s.objects[x.address]
              && Reachable(Collect(s), x.address)
  {
    var kept := ReachableSet(s);
    KeepMembers(s.registry, kept);
    if x in s.registry {
      assert x.address in Addresses(s.registry);
      if Reachable(s, x.address) {
        var path :| IsChain(s, path) && path[|path| - 1] == x.address;
        CollectKeepsReachable(s, path);
      }
    }
  }

  lemma CollectIsIdempotent(s: State)
    requires Invariant(s)
    ensures Collect(Collect(s)).registry == Collect(s).registry
    ensures Collect(Collect(s)).objects == Collect(s).objects
  {
    CollectKeepsInvariant(s);
    forall x | x in Collect(s).registry ensures Reachable(Collect(s), x.address) {
      CollectIsPrecise(s, x);
    }
    NothingToCollect(Collect(s));
  }

  lemma NothingToCollect(s: State)
    requires s.objects.Keys == Addresses(s.registry)
    requires forall x :: x in s.registry ==> Reachable(s, x.address)
    ensures Collect(s).registry == s.registry && Collect(s).objects == s.objects
  {
    forall x | x in s.registry ensures x.address in ReachableSet(s) {
      assert x.address in Addresses(s.registry);
    }
    KeepAll(s.registry, ReachableSet(s));
    RestrictToAll(s.objects, s.registry, ReachableSet(s));
  }

  lemma RestrictToAll(objects: map<Address, Object>, registry: seq<Allocation>, kept: set<Address>)
    requires objects.Keys == Addresses(registry)
    requires forall x :: x in registry ==> x.address in kept
    ensures Restrict(objects, kept) == objects
  {
  }

  lemma {:induction false} KeepAll(registry: seq<Allocation>, kept: set<Address>)
    requires forall i :: 0 <= i < |registry| ==> registry[i].address in kept
    ensures Keep(registry, kept) == registry
  {
    if registry != [] { KeepAll(registry[1..], kept); }
  }

  /** A reference written into a slot of a reachable object keeps what it refers to alive. */
  lemma WrittenSurvives(s: State, a: Address, offset: nat, x: Allocation)
    requires Invariant(s) && Reachable(s, a) && a in s.objects && IsReference(s.objects[a], offset) && x in s.registry
    ensures var written := Step(s, Action.WriteWord(a, offset, x.address));
            written.Some? && x in Collect(written.value).registry
  {
    var path :| IsChain(s, path) && path[|path| - 1] == a;
    var written := Step(s, Action.WriteWord(a, offset, x.address)).value;
    StepKeepsInvariant(s, Action.WriteWord(a, offset, x.address));
    WriteKeepsChain(s, a, offset, x.address, path);
    WriteIsReference(s.objects[a], offset, x.address);
    assert x.address in Addresses(written.registry);
    ReachableFromReference(written, a, x.address);
    CollectIsPrecise(written, x);
  }

  /** So does one written into a slot of an active frame. */
  lemma RootedSurvives(s: State, f: nat, slot: SlotId, x: Allocation)
    requires Invariant(s) && f < |s.frames| && slot in s.frames[f].slots && x in s.registry
    ensures var written := Step(s, Action.WriteRoot(slot, x.address));
            written.Some? && x in Collect(written.value).registry
  {
    var written := Step(s, Action.WriteRoot(slot, x.address)).value;
    StepKeepsInvariant(s, Action.WriteRoot(slot, x.address));
    var i :| 0 <= i < |s.frames[f].slots| && s.frames[f].slots[i] == slot;
    assert RootValue(written, written.frames[f].slots[i]) == x.address;
    ReachableFromRoot(written, x.address);
    CollectIsPrecise(written, x);
  }

  /** What is written at a reference's offset is then referred to. */
  lemma WriteIsReference(o: Object, offset: nat, b: Address)
    requires IsReference(o, offset)
    ensures b in References(Update(o, offset, b))
  {
    var updated := Update(o, offset, b);
    assert IsReference(updated, offset) && WordAt(updated, offset) == b;
    ReferencesAreSlots(updated, b);
  }

  /** A write into an object leaves it reachable, by the part of a chain that comes to it first. */
  lemma {:induction false} WriteKeepsChain(s: State, a: Address, offset: nat, b: Address, path: seq<Address>)
    requires IsChain(s, path) && path[|path| - 1] == a
    ensures Reachable(s.(objects := s.objects[a := Update(s.objects[a], offset, b)]), a)
    decreases |path|
  {
    var written := s.(objects := s.objects[a := Update(s.objects[a], offset, b)]);
    var shorter := path[..|path| - 1];
    if a in shorter {
      var k :| 0 <= k < |shorter| && shorter[k] == a;
      ChainPrefix(s, path, k);
      WriteKeepsChain(s, a, offset, b, path[..k + 1]);
    } else {
      assert forall k :: 0 <= k < |path| - 1 ==> path[k] == shorter[k] && path[k] != a;
      assert IsChain(written, path);
    }
  }

  lemma ChainPrefix(s: State, path: seq<Address>, k: nat)
    requires IsChain(s, path) && k < |path|
    ensures IsChain(s, path[..k + 1])
  {
  }

  /** No step frees a reachable object. */
  lemma StepKeepsReachable(s: State, action: Action, x: Allocation)
    requires Invariant(s) && Step(s, action).Some?
    requires x in s.registry && Reachable(s, x.address)
    ensures x in Step(s, action).value.registry
  {
    ReachableSurvives(s, x);
    if action.Allocate? {
      RoomKeeps(s, action.size, x);
    }
  }

  lemma ReachableSurvives(s: State, x: Allocation)
    requires Invariant(s) && x in s.registry && Reachable(s, x.address)
    ensures x in Collect(s).registry
  {
    CollectIsPrecise(s, x);
  }

  /** Making room drops nothing that a collection keeps. */
  lemma RoomKeeps(s: State, size: nat, x: Allocation)
    requires x in s.registry && x in Collect(s).registry
    ensures CollectBeforeAllocation(s, size).Some? ==> x in CollectBeforeAllocation(s, size).value.registry
  {
  }

  /** An object that stays reachable through a whole run extension is still registered, with its identity, at the
      end. */
  lemma {:induction false} ReachableIsNeverFreed(actions: seq<Action>, from: nat, x: Allocation)
    requires from <= |actions| && Run(actions).Some?
    requires forall k :: from <= k <= |actions| ==> Run(actions[..k]).Some?
    requires x in Run(actions[..from]).value.registry
    requires forall k :: from <= k < |actions| ==> Reachable(Run(actions[..k]).value, x.address)
    ensures x in Run(actions).value.registry
    decreases |actions|
  {
    if from == |actions| {
      assert actions[..from] == actions;
    } else {
      var before := actions[..|actions| - 1];
      assert forall k :: 0 <= k <= |before| ==> before[..k] == actions[..k];
      ReachableIsNeverFreed(before, from, x);
      RunKeepsInvariant(before);
      StepKeepsReachable(Run(before).value, actions[|actions| - 1], x);
    }
  }
}
