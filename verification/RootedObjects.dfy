/** Root clearing and collection together: what generated code can still use, a collection at any point of a run
    keeps. */
module RootedObjects {
  import opened Wrappers
  import opened Mir
  import opened Liveness
  import opened RootClearing
  import HeapModel

  type Address = HeapModel.Address

  /** The references in a word: several for an aggregate, at most one for another value. */
  type ReferencesIn<!W> = W -> seq<Address>

  /** The slot of a root frame that holds a reference of a root's word. */
  type SlotOf = (Root, nat) -> HeapModel.SlotId

  /** An active frame exposes every reference in the root slots of the body with clears. */
  ghost predicate Exposed<W, H>(p: Program<W, H>, references: ReferencesIn<W>, slotOf: SlotOf, emitted: Config<W, H>,
                                s: HeapModel.State) {
    exists f :: 0 <= f < |s.frames| && Shows(p, references, slotOf, emitted.machine.slots, s, s.frames[f])
  }

  ghost predicate Shows<W, H>(p: Program<W, H>, references: ReferencesIn<W>, slotOf: SlotOf, slots: map<Root, W>,
                              s: HeapModel.State, frame: HeapModel.Frame) {
    forall r, k :: r in p.roots && 0 <= k < |references(Slot(slots, r, p.semantics.nullWord))| ==>
      && slotOf(r, k) in frame.slots
      && HeapModel.RootValue(s, slotOf(r, k)) == references(Slot(slots, r, p.semantics.nullWord))[k]
  }

  /** What a root stands for in the body without clears: a value's word, or what a symbol's slot holds. */
  function Held<W, H>(p: Program<W, H>, c: Config<W, H>, r: Root): W {
    if r.Value? then Read(p, c.machine, r.value) else Slot(c.machine.slots, r, p.semantics.nullWord)
  }

  /** The root has been written and some path from here still uses it. */
  ghost predicate InUse<W, H>(p: Program<W, H>, c: Config<W, H>, r: Root) {
    r in p.roots && Readable(c.machine.unset, r) && LiveAt(p.body, Point(c.block, c.index), r)
  }

  /** A chain of live objects, each referring to the next. */
  ghost predicate Leads(s: HeapModel.State, path: seq<Address>) {
    && path != []
    && (forall k :: 0 <= k < |path| ==> path[k] in HeapModel.Addresses(s.registry) && path[k] in s.objects)
    && forall k :: 0 <= k < |path| - 1 ==> path[k + 1] in HeapModel.References(s.objects[path[k]])
  }

  /** The program can get at the object: from a reference in a root that is still used, along references of objects. */
  ghost predicate Usable<W, H>(p: Program<W, H>, references: ReferencesIn<W>, c: Config<W, H>, s: HeapModel.State,
                               a: Address) {
    exists r, path :: InUse(p, c, r) && Leads(s, path) && path[0] in references(Held(p, c, r)) && path[|path| - 1] == a
  }

  /** A collection that starts at any point of any run of the body with clears keeps every object that the body
      without clears could still use there, contents included. */
  lemma UsableObjectsSurvive<W, H>(p: Program<W, H>, t: Tables, m: Machine<W, H>, steps: nat,
                                   references: ReferencesIn<W>, slotOf: SlotOf, s: HeapModel.State,
                                   x: HeapModel.Allocation)
    requires WellFormed(p.body) && Shaped(p.body, t) && Consistent(p.body, p.roots, t) && Exact(p.body, p.roots, t)
    requires Mirrored(p, m) && HeapModel.Invariant(s) && x in s.registry
    requires Exposed(p, references, slotOf, Run(p, Some(t), m, steps), s)
    requires Usable(p, references, Run(p, None, m, steps), s, x.address)
    ensures x in HeapModel.Collect(s).registry
    ensures x.address in s.objects && x.address in HeapModel.Collect(s).objects
    ensures HeapModel.Collect(s).objects[x.address] == s.objects[x.address]
  {
    var plain, emitted := Run(p, None, m, steps), Run(p, Some(t), m, steps);
    var r, path :| InUse(p, plain, r) && Leads(s, path) && path[0] in references(Held(p, plain, r))
                && path[|path| - 1] == x.address;
    LiveRootsAreSeen(p, t, m, steps, r);
    var f :| 0 <= f < |s.frames| && Shows(p, references, slotOf, emitted.machine.slots, s, s.frames[f]);
    HeldIsRoot(p, references, slotOf, plain, emitted, s, f, r, path[0]);
    assert HeapModel.IsChain(s, path);
    HeapModel.CollectIsPrecise(s, x);
  }

  lemma HeldIsRoot<W, H>(p: Program<W, H>, references: ReferencesIn<W>, slotOf: SlotOf, plain: Config<W, H>,
                         emitted: Config<W, H>, s: HeapModel.State, f: nat, r: Root, a: Address)
    requires InUse(p, plain, r) && Seen(p, plain, emitted, r) && a in references(Held(p, plain, r))
    requires f < |s.frames| && Shows(p, references, slotOf, emitted.machine.slots, s, s.frames[f])
    ensures HeapModel.IsRoot(s, a)
  {
    var word := Slot(emitted.machine.slots, r, p.semantics.nullWord);
    assert word == Held(p, plain, r);
    var k :| 0 <= k < |references(word)| && references(word)[k] == a;
    assert slotOf(r, k) in s.frames[f].slots;
    var i :| 0 <= i < |s.frames[f].slots| && s.frames[f].slots[i] == slotOf(r, k);
  }
}
