/** The slot clears that code generation inserts, and the proof that no execution can tell
    they are there: the emitted body runs in lockstep with the body that never clears. */
module RootClearing {
  import opened Wrappers
  import opened Mir
  import opened Liveness

  // ----- what is emitted -----

  /** Roots zeroed on entry to a block: those some predecessor kept, or that arrive as parameters, and are dead here. */
  ghost function EntryClears(body: Body, parameters: set<SymbolId>, roots: set<Root>, t: Tables,
                             b: BlockId): (clears: set<Root>)
    requires Shaped(body, t) && InRange(body, b)
    ensures clears <= roots - t.afterPhis[b]
  {
    set r | r in roots && r !in t.afterPhis[b]
         && ((b == body.entry && r.Symbol? && r.symbol in parameters)
             || exists p :: 0 <= p < |body.blocks| && b in Successors(body.blocks[p].terminator) && r in t.liveOut[p])
  }

  /** Roots zeroed after an instruction: those it touched that are dead afterwards. */
  ghost function DeadRoots(instruction: Instruction, roots: set<Root>, live: set<Root>): (clears: set<Root>)
    ensures clears <= roots - live
  {
    (Uses(instruction) + Definitions(instruction)) * roots - live
  }

  // ----- machines -----

  /** `unset` holds the locals declared without an initializer and not written since;
      a slot that is absent from `slots` holds the null word. */
  datatype Machine<W, H> = Machine(registers: map<ValueId, W>, slots: map<Root, W>, unset: set<SymbolId>, world: H)

  datatype Effect<W, H> = Effect(result: W, error: W, success: W, stored: W, world: H)

  /** What instructions and terminators compute from the words they read; arbitrary. A branch tests its word, a switch
      picks a case by it, and what leaves the body goes to the world. */
  datatype Semantics<!W, !H> = Semantics(
    nullWord: W,
    execute: (Instruction, seq<W>, W, H) -> Effect<W, H>,
    holds: W -> bool,
    select: (Terminator, W) -> nat,
    leave: (Terminator, seq<W>, H) -> H)

  datatype Program<!W, !H> = Program(body: Body, parameters: set<SymbolId>, roots: set<Root>,
                                     aggregates: set<ValueId>, semantics: Semantics<W, H>)

  datatype Status = Running | Halted | Stuck

  datatype Config<W, H> = Config(block: BlockId, index: nat, machine: Machine<W, H>, status: Status)

  function Slot<W>(slots: map<Root, W>, r: Root, nullWord: W): W {
    if r in slots then slots[r] else nullWord
  }

  function Register<W, H>(m: Machine<W, H>, v: ValueId, nullWord: W): W {
    if v in m.registers then m.registers[v] else nullWord
  }

  /** An aggregate is read from its storage, which is its root; any other value from its register. */
  function Read<W, H>(p: Program<W, H>, m: Machine<W, H>, v: ValueId): W {
    if v in p.aggregates then Slot(m.slots, Value(v), p.semantics.nullWord) else Register(m, v, p.semantics.nullWord)
  }

  function ReadAll<W, H>(p: Program<W, H>, m: Machine<W, H>, values: seq<ValueId>): seq<W> {
    seq(|values|, i requires 0 <= i < |values| => Read(p, m, values[i]))
  }

  function ReadSymbol<W, H>(p: Program<W, H>, m: Machine<W, H>, symbol: Option<SymbolId>): W {
    if symbol.Some? then Slot(m.slots, Symbol(symbol.value), p.semantics.nullWord) else p.semantics.nullWord
  }

  /** A result goes to its storage, or to its register and, when it is rooted, to its root slot. */
  function Define<W, H>(p: Program<W, H>, m: Machine<W, H>, v: Option<ValueId>, w: W): Machine<W, H> {
    if v.None? then m
    else if v.value in p.aggregates then m.(slots := m.slots[Value(v.value) := w])
    else if Value(v.value) in p.roots then
      m.(registers := m.registers[v.value := w], slots := m.slots[Value(v.value) := w])
    else m.(registers := m.registers[v.value := w])
  }

  function ReadOption<W, H>(p: Program<W, H>, m: Machine<W, H>, v: Option<ValueId>): seq<W> {
    if v.Some? then [Read(p, m, v.value)] else []
  }

  /** The words that an instruction reads, kind by kind. */
  function Operands<W, H>(p: Program<W, H>, m: Machine<W, H>, data: InstructionData): seq<W> {
    match data
    case Constant => []
    case LoadSymbol(_) => []
    case DeclareLocal(_, initializer) => ReadOption(p, m, initializer)
    case StoreSymbol(_, value) => [Read(p, m, value)]
    case LoadMember(object') => [Read(p, m, object')]
    case StoreMember(object', value) => [Read(p, m, object'), Read(p, m, value)]
    case LoadStorage(path) => ReadOption(p, m, path.base) + ReadOption(p, m, path.index)
    case StoreStorage(path, value) => [Read(p, m, value)] + ReadOption(p, m, path.base) + ReadOption(p, m, path.index)
    case ArrayLiteral(elements) => ReadAll(p, m, elements)
    case ArrayAllocate(length) => [Read(p, m, length)]
    case ArrayLoad(array', index) => [Read(p, m, array'), Read(p, m, index)]
    case ArrayStore(array', index, value) => [Read(p, m, array'), Read(p, m, index), Read(p, m, value)]
    case ArrayLength(array') => [Read(p, m, array')]
    case StringMeta(text) => [Read(p, m, text)]
    case StringSlice(text, start, end) => [Read(p, m, text), Read(p, m, start), Read(p, m, end)]
    case StringScalarAt(text, index) => [Read(p, m, text), Read(p, m, index)]
    case StringNextScalar(text) => [Read(p, m, text)]
    case ObjectMeta(object') => [Read(p, m, object')]
    case IntegerWrite(value, destination, offset) => [Read(p, m, value), Read(p, m, destination), Read(p, m, offset)]
    case IntegerRead(source, offset) => [Read(p, m, source), Read(p, m, offset)]
    case Unary(operand) => [Read(p, m, operand)]
    case Binary(left, right) => [Read(p, m, left), Read(p, m, right)]
    case NullableEqual(left, right) => [Read(p, m, left), Read(p, m, right)]
    case Convert(value) => [Read(p, m, value)]
    case Box(value) => [Read(p, m, value)]
    case Unbox(value) => [Read(p, m, value)]
    case IsNonNull(value) => [Read(p, m, value)]
    case NullAssert(value) => [Read(p, m, value)]
    case TypeTest(value) => [Read(p, m, value)]
    case CheckedCast(value) => [Read(p, m, value)]
    case Call(receiver, arguments, _, _) => ReadOption(p, m, receiver) + ReadAll(p, m, arguments)
    case LoadCallResult(storage) => [Read(p, m, storage)]
    case Phi(_) => []
  }

  /** The symbol whose storage an instruction looks at. */
  function SymbolRead(data: InstructionData): Option<SymbolId> {
    match data
    case LoadSymbol(symbol) => Some(symbol)
    case LoadStorage(StoragePath(Some(symbol), _, _)) => Some(symbol)
    case StoreStorage(StoragePath(Some(symbol), _, _), _) => Some(symbol)
    case _ => None
  }

  /** A declaration without initializer emits nothing and leaves the local unset. */
  function StoreLocal<W, H>(p: Program<W, H>, m: Machine<W, H>, data: InstructionData, stored: W): Machine<W, H> {
    match data
    case DeclareLocal(s, None) => m.(unset := m.unset + {s})
    case DeclareLocal(s, Some(v)) => m.(slots := m.slots[Symbol(s) := Read(p, m, v)], unset := m.unset - {s})
    case StoreSymbol(s, v) => m.(slots := m.slots[Symbol(s) := Read(p, m, v)], unset := m.unset - {s})
    case StoreStorage(StoragePath(Some(s), _, _), _) => m.(slots := m.slots[Symbol(s) := stored])
    case _ => m
  }

  /** A call that may throw writes its success and its error. */
  function DefineCall<W, H>(p: Program<W, H>, m: Machine<W, H>, data: InstructionData,
                            effect: Effect<W, H>): Machine<W, H> {
    match data
    case Call(_, _, success, error) => Define(p, Define(p, m, success, effect.success), error, effect.error)
    case _ => m
  }

  function ExecuteInstruction<W, H>(p: Program<W, H>, m: Machine<W, H>, instruction: Instruction): Machine<W, H> {
    var data := instruction.data;
    var effect := p.semantics.execute(instruction, Operands(p, m, data), ReadSymbol(p, m, SymbolRead(data)), m.world);
    var defined := Define(p, StoreLocal(p, m, data, effect.stored), instruction.result, effect.result);
    DefineCall(p, defined, data, effect).(world := effect.world)
  }

  /** The words that a terminator reads. */
  function TerminatorWords<W, H>(p: Program<W, H>, m: Machine<W, H>, terminator: Terminator): seq<W> {
    match terminator
    case Branch(condition, _, _) => [Read(p, m, condition)]
    case Switch(selector, _, _, _) => [Read(p, m, selector)]
    case Return(value) => ReadOption(p, m, value)
    case Raise(error) => [Read(p, m, error)]
    case _ => []
  }

  /** The block that a terminator goes to, if it stays in the body. */
  function Target<W, H>(p: Program<W, H>, m: Machine<W, H>, terminator: Terminator): Option<BlockId> {
    Chosen(terminator, terminator.Branch? && p.semantics.holds(Read(p, m, terminator.condition)),
           if terminator.Switch? then p.semantics.select(terminator, Read(p, m, terminator.selector)) else 0)
  }

  // ----- reads are uses -----

  lemma ReadAppends<W, H>(p: Program<W, H>, m: Machine<W, H>, a: seq<ValueId>, b: seq<ValueId>)
    ensures ReadAll(p, m, a + b) == ReadAll(p, m, a) + ReadAll(p, m, b)
  {
  }

  lemma ReadListed<W, H>(p: Program<W, H>, m: Machine<W, H>, v: Option<ValueId>)
    ensures ReadAll(p, m, Listed(v)) == ReadOption(p, m, v)
  {
  }

  /** What an instruction reads, kind by kind, are the words of its uses in their order, and the symbol it uses. */
  lemma OperandsAreUses<W, H>(p: Program<W, H>, m: Machine<W, H>, instruction: Instruction)
    ensures Operands(p, m, instruction.data) == ReadAll(p, m, InstructionUses(instruction))
    ensures SymbolRead(instruction.data) == StorageSymbolUse(instruction)
  {
    match instruction.data
    case DeclareLocal(_, initializer) => ReadListed(p, m, initializer);
    case LoadStorage(path) => PathIsUses(p, m, path);
    case StoreStorage(path, value) =>
      PathIsUses(p, m, path);
      ReadAppends(p, m, [value], Listed(path.base) + Listed(path.index));
      assert InstructionUses(instruction) == [value] + (Listed(path.base) + Listed(path.index));
    case Call(receiver, arguments, _, _) =>
      ReadListed(p, m, receiver);
      ReadAppends(p, m, Listed(receiver), arguments);
    case ArrayLiteral(_) =>
    case _ => FewOperandsAreUses(p, m, instruction);
  }

  lemma FewOperandsAreUses<W, H>(p: Program<W, H>, m: Machine<W, H>, instruction: Instruction)
    requires !instruction.data.DeclareLocal? && !instruction.data.LoadStorage? && !instruction.data.StoreStorage?
    requires !instruction.data.ArrayLiteral? && !instruction.data.Call?
    ensures Operands(p, m, instruction.data) == ReadAll(p, m, InstructionUses(instruction))
  {
    var uses := InstructionUses(instruction);
    if |uses| == 3 {
      assert ReadAll(p, m, uses) == [Read(p, m, uses[0]), Read(p, m, uses[1]), Read(p, m, uses[2])];
    } else if |uses| == 2 {
      assert ReadAll(p, m, uses) == [Read(p, m, uses[0]), Read(p, m, uses[1])];
    } else if |uses| == 1 {
      assert ReadAll(p, m, uses) == [Read(p, m, uses[0])];
    } else {
      assert ReadAll(p, m, uses) == [];
    }
  }

  lemma PathIsUses<W, H>(p: Program<W, H>, m: Machine<W, H>, path: StoragePath)
    ensures ReadAll(p, m, Listed(path.base) + Listed(path.index))
         == ReadOption(p, m, path.base) + ReadOption(p, m, path.index)
  {
    ReadListed(p, m, path.base);
    ReadListed(p, m, path.index);
    ReadAppends(p, m, Listed(path.base), Listed(path.index));
  }

  lemma WordsAreUses<W, H>(p: Program<W, H>, m: Machine<W, H>, terminator: Terminator)
    ensures TerminatorWords(p, m, terminator) == ReadAll(p, m, TerminatorUses(terminator))
  {
    match terminator
    case Return(value) => ReadListed(p, m, value);
    case _ =>
  }

  /** An instruction writes no slots but those of its definitions, the storage it stores into and that of a call's
      success. */
  lemma WritesAreDefinitions<W, H>(p: Program<W, H>, m: Machine<W, H>, instruction: Instruction, r: Root)
    requires r !in Definitions(instruction)
    requires instruction.data.StoreStorage? ==> r !in SymbolRoot(instruction.data.path.symbol)
    requires instruction.data.Call? ==> r !in ValueRoots(Listed(instruction.data.success))
    ensures Slot(ExecuteInstruction(p, m, instruction).slots, r, p.semantics.nullWord)
         == Slot(m.slots, r, p.semantics.nullWord)
  {
    var data := instruction.data;
    var effect := p.semantics.execute(instruction, Operands(p, m, data), ReadSymbol(p, m, SymbolRead(data)), m.world);
    var stored := StoreLocal(p, m, data, effect.stored);
    var defined := Define(p, stored, instruction.result, effect.result);
    assert Slot(stored.slots, r, p.semantics.nullWord) == Slot(m.slots, r, p.semantics.nullWord);
    DefineWrites(p, stored, instruction.result, effect.result, r);
    if data.Call? {
      DefineWrites(p, defined, data.success, effect.success, r);
      DefineWrites(p, Define(p, defined, data.success, effect.success), data.errorResult, effect.error, r);
    }
  }

  lemma DefineWrites<W, H>(p: Program<W, H>, m: Machine<W, H>, v: Option<ValueId>, w: W, r: Root)
    requires r !in ValueRoots(Listed(v))
    ensures Slot(Define(p, m, v, w).slots, r, p.semantics.nullWord) == Slot(m.slots, r, p.semantics.nullWord)
  {
  }

  // ----- phis -----

  function Phis(block: Block): seq<Instruction> {
    block.instructions[..LeadingPhis(block.instructions)]
  }

  function IncomingFrom(incoming: seq<PhiIncoming>, predecessor: BlockId): Option<ValueId> {
    if incoming == [] then None
    else if incoming[0].predecessor == predecessor then Some(incoming[0].value)
    else IncomingFrom(incoming[1..], predecessor)
  }

  /** Which value each phi copies when control arrives from `predecessor`. */
  function Moves(phis: seq<Instruction>, predecessor: BlockId): map<ValueId, ValueId>
    requires forall k :: 0 <= k < |phis| ==> phis[k].data.Phi?
  {
    if phis == [] then map[]
    else
      var rest := Moves(phis[1..], predecessor);
      var source := IncomingFrom(phis[0].data.incoming, predecessor);
      if phis[0].result.Some? && source.Some? then rest[phis[0].result.value := source.value] else rest
  }

  /** All phi results written at once, from the values held before. */
  function MoveAggregates<W>(slots: map<Root, W>, moves: map<ValueId, ValueId>, aggregates: set<ValueId>,
                             nullWord: W): map<Root, W> {
    slots + map v | v in moves && v in aggregates :: Value(v) := Slot(slots, Value(moves[v]), nullWord)
  }

  function MoveScalars<W, H>(p: Program<W, H>, m: Machine<W, H>, moves: map<ValueId, ValueId>): Machine<W, H> {
    var words := map v | v in moves && v !in p.aggregates :: Register(m, moves[v], p.semantics.nullWord);
    m.(registers := m.registers + words,
       slots := m.slots + map v | v in words && Value(v) in p.roots :: Value(v) := words[v])
  }

  /** First phase of an edge block: every aggregate operand is copied to the scratch storage of its phi. */
  function CopyIn<W>(slots: map<Root, W>, phis: seq<Instruction>, predecessor: BlockId, aggregates: set<ValueId>,
                     nullWord: W, scratch: map<ValueId, W>): map<ValueId, W>
    requires forall k :: 0 <= k < |phis| ==> phis[k].data.Phi?
  {
    if phis == [] then scratch
    else
      var next := if phis[0].result.Some? && phis[0].result.value in aggregates
                  then CopyIncoming(slots, phis[0].result.value, phis[0].data.incoming, predecessor, nullWord, scratch)
                  else scratch;
      CopyIn(slots, phis[1..], predecessor, aggregates, nullWord, next)
  }

  function CopyIncoming<W>(slots: map<Root, W>, phi: ValueId, incoming: seq<PhiIncoming>, predecessor: BlockId,
                           nullWord: W, scratch: map<ValueId, W>): map<ValueId, W>
  {
    if incoming == [] then scratch
    else
      CopyIncoming(slots, phi, incoming[1..], predecessor, nullWord,
                   if incoming[0].predecessor == predecessor
                   then scratch[phi := Slot(slots, Value(incoming[0].value), nullWord)] else scratch)
  }

  /** Second phase: every scratch storage is copied to its phi and zeroed. */
  function CopyOut<W>(slots: map<Root, W>, phis: seq<Instruction>, aggregates: set<ValueId>,
                      nullWord: W, scratch: map<ValueId, W>): (map<Root, W>, map<ValueId, W>)
    decreases phis
  {
    if phis == [] then (slots, scratch)
    else if phis[0].result.Some? && phis[0].result.value in aggregates then
      var v := phis[0].result.value;
      CopyOut(slots[Value(v) := Scratch(scratch, v, nullWord)], phis[1..], aggregates, nullWord, scratch - {v})
    else
      CopyOut(slots, phis[1..], aggregates, nullWord, scratch)
  }

  /** What the verifier of the representation guarantees of the phis at the head of a block:
      one operand per incoming edge, and no value defined twice. */
  ghost predicate PhisCover(phis: seq<Instruction>, predecessor: BlockId) {
    && (forall k :: 0 <= k < |phis| ==> phis[k].data.Phi? && phis[k].result.Some?)
    && (forall j, k :: 0 <= j < k < |phis| ==> phis[j].result != phis[k].result)
    && (forall k :: 0 <= k < |phis| ==> CoversOnce(phis[k].data.incoming, predecessor))
  }

  ghost predicate CoversOnce(incoming: seq<PhiIncoming>, predecessor: BlockId) {
    && (exists i :: 0 <= i < |incoming| && incoming[i].predecessor == predecessor)
    && AtMostOnce(incoming, predecessor)
  }

  ghost predicate AtMostOnce(incoming: seq<PhiIncoming>, predecessor: BlockId) {
    forall i, j :: 0 <= i < j < |incoming| ==>
      incoming[i].predecessor != predecessor || incoming[j].predecessor != predecessor
  }

  lemma {:induction false} CopyIncomingOnce<W>(slots: map<Root, W>, phi: ValueId, incoming: seq<PhiIncoming>,
                                               predecessor: BlockId, nullWord: W, scratch: map<ValueId, W>)
    requires AtMostOnce(incoming, predecessor)
    ensures var source := IncomingFrom(incoming, predecessor);
            CopyIncoming(slots, phi, incoming, predecessor, nullWord, scratch)
            == (if source.None? then scratch else scratch[phi := Slot(slots, Value(source.value), nullWord)])
  {
    if incoming != [] {
      var rest := incoming[1..];
      assert forall i :: 0 <= i < |rest| ==> rest[i] == incoming[i + 1];
      var next := if incoming[0].predecessor == predecessor
                  then scratch[phi := Slot(slots, Value(incoming[0].value), nullWord)] else scratch;
      CopyIncomingOnce(slots, phi, rest, predecessor, nullWord, next);
      if incoming[0].predecessor == predecessor {
        NoIncoming(rest, predecessor);
      }
    }
  }

  lemma {:induction false} NoIncoming(incoming: seq<PhiIncoming>, predecessor: BlockId)
    requires forall i :: 0 <= i < |incoming| ==> incoming[i].predecessor != predecessor
    ensures IncomingFrom(incoming, predecessor) == None
  {
    if incoming != [] { NoIncoming(incoming[1..], predecessor); }
  }

  lemma {:induction false} SomeIncoming(incoming: seq<PhiIncoming>, predecessor: BlockId, i: nat)
    requires i < |incoming| && incoming[i].predecessor == predecessor
    ensures IncomingFrom(incoming, predecessor).Some?
  {
    if i > 0 { SomeIncoming(incoming[1..], predecessor, i - 1); }
  }

  lemma PhisCoverTail(phis: seq<Instruction>, predecessor: BlockId)
    requires PhisCover(phis, predecessor) && phis != []
    ensures PhisCover(phis[1..], predecessor)
    ensures phis[0].result.value !in Moves(phis[1..], predecessor)
  {
    assert forall k :: 0 <= k < |phis[1..]| ==> phis[1..][k] == phis[k + 1];
    MovesKeys(phis[1..], predecessor);
  }

  lemma {:induction false} MovesKeys(phis: seq<Instruction>, predecessor: BlockId)
    requires PhisCover(phis, predecessor)
    ensures forall v :: v in Moves(phis, predecessor) <==> exists k :: 0 <= k < |phis| && phis[k].result == Some(v)
  {
    if phis != [] {
      assert forall k :: 0 <= k < |phis[1..]| ==> phis[1..][k] == phis[k + 1];
      assert PhisCover(phis[1..], predecessor);
      MovesKeys(phis[1..], predecessor);
      var i :| 0 <= i < |phis[0].data.incoming| && phis[0].data.incoming[i].predecessor == predecessor;
      SomeIncoming(phis[0].data.incoming, predecessor, i);
      forall v ensures v in Moves(phis, predecessor) <==> exists k :: 0 <= k < |phis| && phis[k].result == Some(v) {
        if v in Moves(phis[1..], predecessor) {
          var k :| 0 <= k < |phis[1..]| && phis[1..][k].result == Some(v);
          assert phis[k + 1].result == Some(v);
        }
        if k :| 0 <= k < |phis| && phis[k].result == Some(v) {
          if k > 0 {
            assert phis[1..][k - 1].result == Some(v);
          }
        }
      }
    }
  }

  /** The word a slot holds once all aggregate phis have been assigned at once. */
  function Moved<W>(slots: map<Root, W>, moves: map<ValueId, ValueId>, aggregates: set<ValueId>, nullWord: W,
                    r: Root): W {
    if r.Value? && r.value in moves && r.value in aggregates
    then Slot(slots, Value(moves[r.value]), nullWord) else Slot(slots, r, nullWord)
  }

  function Scratch<W>(scratch: map<ValueId, W>, v: ValueId, nullWord: W): W {
    if v in scratch then scratch[v] else nullWord
  }

  lemma {:induction false} CopyInIsMoves<W>(slots: map<Root, W>, phis: seq<Instruction>, predecessor: BlockId,
                                            aggregates: set<ValueId>, nullWord: W, scratch: map<ValueId, W>, v: ValueId)
    requires PhisCover(phis, predecessor)
    ensures var moves := Moves(phis, predecessor);
            var copied := CopyIn(slots, phis, predecessor, aggregates, nullWord, scratch);
            if v in moves && v in aggregates then v in copied && copied[v] == Slot(slots, Value(moves[v]), nullWord)
            else (v in copied <==> v in scratch) && (v in scratch ==> copied[v] == scratch[v])
    decreases phis
  {
    if phis != [] {
      PhisCoverTail(phis, predecessor);
      assert CoversOnce(phis[0].data.incoming, predecessor);
      var i :| 0 <= i < |phis[0].data.incoming| && phis[0].data.incoming[i].predecessor == predecessor;
      SomeIncoming(phis[0].data.incoming, predecessor, i);
      var w := phis[0].result.value;
      CopyIncomingOnce(slots, w, phis[0].data.incoming, predecessor, nullWord, scratch);
      var next := if w in aggregates
                  then CopyIncoming(slots, w, phis[0].data.incoming, predecessor, nullWord, scratch) else scratch;
      CopyInIsMoves(slots, phis[1..], predecessor, aggregates, nullWord, next, v);
    }
  }

  lemma {:induction false} CopyOutIsMoves<W>(slots: map<Root, W>, phis: seq<Instruction>, predecessor: BlockId,
                                             aggregates: set<ValueId>, nullWord: W, scratch: map<ValueId, W>,
                                             r: Root, v: ValueId)
    requires PhisCover(phis, predecessor)
    ensures var moves := Moves(phis, predecessor);
            var (out, left) := CopyOut(slots, phis, aggregates, nullWord, scratch);
            && (Slot(out, r, nullWord) == if r.Value? && r.value in moves && r.value in aggregates
                                          then Scratch(scratch, r.value, nullWord) else Slot(slots, r, nullWord))
            && (v in left <==> v in scratch && !(v in moves && v in aggregates))
    decreases phis
  {
    if phis != [] {
      PhisCoverTail(phis, predecessor);
      assert CoversOnce(phis[0].data.incoming, predecessor);
      var i :| 0 <= i < |phis[0].data.incoming| && phis[0].data.incoming[i].predecessor == predecessor;
      SomeIncoming(phis[0].data.incoming, predecessor, i);
      var w := phis[0].result.value;
      if w in aggregates {
        CopyOutIsMoves(slots[Value(w) := Scratch(scratch, w, nullWord)], phis[1..], predecessor, aggregates, nullWord,
                       scratch - {w}, r, v);
      } else {
        CopyOutIsMoves(slots, phis[1..], predecessor, aggregates, nullWord, scratch, r, v);
      }
    }
  }

  /** The edge block's two phases equal assigning all aggregate phis at once, swaps included,
      and leave every scratch storage zeroed. */
  lemma TwoPhaseIsSimultaneous<W>(slots: map<Root, W>, phis: seq<Instruction>, predecessor: BlockId,
                                  aggregates: set<ValueId>, nullWord: W)
    requires PhisCover(phis, predecessor)
    ensures var scratch := CopyIn(slots, phis, predecessor, aggregates, nullWord, map[]);
            var (out, left) := CopyOut(slots, phis, aggregates, nullWord, scratch);
            && (forall r :: Slot(out, r, nullWord) == Moved(slots, Moves(phis, predecessor), aggregates, nullWord, r))
            && left == map[]
  {
    var scratch := CopyIn(slots, phis, predecessor, aggregates, nullWord, map[]);
    var (out, left) := CopyOut(slots, phis, aggregates, nullWord, scratch);
    forall r ensures Slot(out, r, nullWord) == Moved(slots, Moves(phis, predecessor), aggregates, nullWord, r) {
      var v := if r.Value? then r.value else 0;
      CopyInIsMoves(slots, phis, predecessor, aggregates, nullWord, map[], v);
      CopyOutIsMoves(slots, phis, predecessor, aggregates, nullWord, scratch, r, v);
    }
    forall v ensures v !in left {
      CopyInIsMoves(slots, phis, predecessor, aggregates, nullWord, map[], v);
      CopyOutIsMoves(slots, phis, predecessor, aggregates, nullWord, scratch, Value(v), v);
    }
    assert left.Keys == {};
  }

  // ----- runs -----

  /** A body the representation's verifier accepts: entry and successors of reachable blocks are
      reachable, phis come first, and each phi covers its incoming edges. */
  ghost predicate WellFormed(body: Body) {
    && IsReachable(body, body.entry)
    && (forall b: BlockId | IsReachable(body, b) :: WellFormedAt(body, b))
  }

  ghost predicate WellFormedAt(body: Body, b: BlockId)
    requires InRange(body, b)
  {
    var block := body.blocks[b];
    && (forall k :: LeadingPhis(block.instructions) <= k < |block.instructions| ==> !block.instructions[k].data.Phi?)
    && forall s :: s in Successors(block.terminator) ==> IsReachable(body, s) && PhisCover(Phis(body.blocks[s]), b)
  }

  /** Whether the next action reads a local that was declared and not written since. */
  predicate ReadsUnset<W, H>(m: Machine<W, H>, instruction: Instruction) {
    var symbol := SymbolRead(instruction.data);
    symbol.Some? && symbol.value in m.unset
  }

  function Clear<W, H>(m: Machine<W, H>, clears: set<Root>): Machine<W, H> {
    m.(slots := m.slots - clears)
  }

  /** Arrival at a block that never clears: all phis take their operands at once. */
  function Arrive<W, H>(p: Program<W, H>, m: Machine<W, H>, moves: map<ValueId, ValueId>): Machine<W, H> {
    MoveScalars(p, m.(slots := MoveAggregates(m.slots, moves, p.aggregates, p.semantics.nullWord)), moves)
  }

  /** Arrival as emitted: the edge block copies aggregates in two phases, scalar phis and their root
      stores follow, then the entry clears. */
  function ArriveEmitted<W, H>(p: Program<W, H>, m: Machine<W, H>, phis: seq<Instruction>, predecessor: BlockId,
                               clears: set<Root>): Machine<W, H>
    requires forall k :: 0 <= k < |phis| ==> phis[k].data.Phi?
  {
    var scratch := CopyIn(m.slots, phis, predecessor, p.aggregates, p.semantics.nullWord, map[]);
    var copied := m.(slots := CopyOut(m.slots, phis, p.aggregates, p.semantics.nullWord, scratch).0);
    Clear(MoveScalars(p, copied, Moves(phis, predecessor)), clears)
  }

  /** One action: an instruction, or a terminator with the edge it takes. With tables, the emitted
      body; without, the body that never clears. */
  ghost function Step<W, H>(p: Program<W, H>, t: Option<Tables>, c: Config<W, H>): Config<W, H>
    requires t.Some? ==> Shaped(p.body, t.value)
  {
    if !c.status.Running? || !InRange(p.body, c.block) then c
    else
      var block := p.body.blocks[c.block];
      if c.index < |block.instructions| then
        var instruction := block.instructions[c.index];
        if ReadsUnset(c.machine, instruction) then c.(status := Stuck)
        else
          var after := ExecuteInstruction(p, c.machine, instruction);
          var clears := if t.None? then {} else
                          DeadRoots(instruction, p.roots, t.value.afterInstructions[c.block][c.index]);
          Config(c.block, c.index + 1, Clear(after, clears), Running)
      else
        var target := Target(p, c.machine, block.terminator);
        if target.None? then
          var words := TerminatorWords(p, c.machine, block.terminator);
          c.(status := Halted, machine :=
             c.machine.(world := p.semantics.leave(block.terminator, words, c.machine.world)))
        else
          var next := target.value;
          if !InRange(p.body, next) then c.(status := Stuck)
          else
            Config(next, LeadingPhis(p.body.blocks[next].instructions),
                   if t.None? then Arrive(p, c.machine, Moves(Phis(p.body.blocks[next]), c.block))
                   else ArriveEmitted(p, c.machine, Phis(p.body.blocks[next]), c.block,
                                      EntryClears(p.body, p.parameters, p.roots, t.value, next)), Running)
  }

  ghost function Start<W, H>(p: Program<W, H>, t: Option<Tables>, m: Machine<W, H>): Config<W, H>
    requires InRange(p.body, p.body.entry)
    requires t.Some? ==> Shaped(p.body, t.value)
  {
    var clears := if t.None? then {} else EntryClears(p.body, p.parameters, p.roots, t.value, p.body.entry);
    Config(p.body.entry, LeadingPhis(p.body.blocks[p.body.entry].instructions), Clear(m, clears), Running)
  }

  ghost function Run<W, H>(p: Program<W, H>, t: Option<Tables>, m: Machine<W, H>, steps: nat): Config<W, H>
    requires InRange(p.body, p.body.entry)
    requires t.Some? ==> Shaped(p.body, t.value)
  {
    if steps == 0 then Start(p, t, m) else Step(p, t, Run(p, t, m, steps - 1))
  }

  /** Arrival gives each phi the word that its operand for the edge had before, whichever phis read each other. */
  lemma PhisReadOperands<W, H>(p: Program<W, H>, m: Machine<W, H>, phis: seq<Instruction>, predecessor: BlockId,
                               k: nat, j: nat)
    requires PhisCover(phis, predecessor) && k < |phis|
    requires j < |phis[k].data.incoming| && phis[k].data.incoming[j].predecessor == predecessor
    requires phis[k].result.value in p.aggregates <==> phis[k].data.incoming[j].value in p.aggregates
    ensures Read(p, Arrive(p, m, Moves(phis, predecessor)), phis[k].result.value)
         == Read(p, m, phis[k].data.incoming[j].value)
  {
    MovesOperand(phis, predecessor, k, j);
  }

  lemma {:induction false} MovesOperand(phis: seq<Instruction>, predecessor: BlockId, k: nat, j: nat)
    requires PhisCover(phis, predecessor) && k < |phis|
    requires j < |phis[k].data.incoming| && phis[k].data.incoming[j].predecessor == predecessor
    ensures phis[k].result.value in Moves(phis, predecessor)
    ensures Moves(phis, predecessor)[phis[k].result.value] == phis[k].data.incoming[j].value
  {
    PhisCoverTail(phis, predecessor);
    assert CoversOnce(phis[0].data.incoming, predecessor);
    if k == 0 {
      IncomingIs(phis[0].data.incoming, predecessor, j);
    } else {
      assert phis[1..][k - 1] == phis[k];
      MovesOperand(phis[1..], predecessor, k - 1, j);
      assert phis[0].result != phis[k].result;
    }
  }

  lemma {:induction false} IncomingIs(incoming: seq<PhiIncoming>, predecessor: BlockId, j: nat)
    requires AtMostOnce(incoming, predecessor) && j < |incoming| && incoming[j].predecessor == predecessor
    ensures IncomingFrom(incoming, predecessor) == Some(incoming[j].value)
  {
    if j > 0 {
      assert incoming[0].predecessor != predecessor;
      assert forall i :: 0 <= i < |incoming[1..]| ==> incoming[1..][i] == incoming[i + 1];
      IncomingIs(incoming[1..], predecessor, j - 1);
    }
  }

  // ----- lockstep -----

  /** A local that is unset has no value anyone may read. */
  predicate Readable(unset: set<SymbolId>, r: Root) {
    r.Symbol? ==> r.symbol !in unset
  }

  /** The two machines differ at most in the slots of roots outside `live`. */
  ghost predicate Agree<W, H>(p: Program<W, H>, live: set<Root>, plain: Machine<W, H>, emitted: Machine<W, H>) {
    && plain.registers == emitted.registers && plain.unset == emitted.unset && plain.world == emitted.world
    && forall r | r !in p.roots || (r in live && Readable(plain.unset, r)) ::
         Slot(plain.slots, r, p.semantics.nullWord) == Slot(emitted.slots, r, p.semantics.nullWord)
  }

  /** Without clears, the root slot of a rooted scalar always holds what its register holds. */
  ghost predicate Mirrored<W, H>(p: Program<W, H>, m: Machine<W, H>) {
    forall v: ValueId | Value(v) in p.roots && v !in p.aggregates ::
      Slot(m.slots, Value(v), p.semantics.nullWord) == Register(m, v, p.semantics.nullWord)
  }

  ghost predicate Lockstep<W, H>(p: Program<W, H>, t: Tables, plain: Config<W, H>, emitted: Config<W, H>)
    requires Shaped(p.body, t)
  {
    && plain.block == emitted.block && plain.index == emitted.index && plain.status == emitted.status
    && ValidPoint(p.body, Point(plain.block, plain.index))
    && LeadingPhis(p.body.blocks[plain.block].instructions) <= plain.index
    && Agree(p, ScanAt(p.body, p.roots, t.liveOut, plain.block, plain.index), plain.machine, emitted.machine)
    && Mirrored(p, plain.machine)
  }

  lemma ReadsAgree<W, H>(p: Program<W, H>, live: set<Root>, plain: Machine<W, H>, emitted: Machine<W, H>,
                         values: seq<ValueId>)
    requires Agree(p, live, plain, emitted)
    requires ValueRoots(values) * p.roots <= live
    ensures ReadAll(p, plain, values) == ReadAll(p, emitted, values)
  {
    forall i | 0 <= i < |values| ensures Read(p, plain, values[i]) == Read(p, emitted, values[i]) {
      assert Value(values[i]) in ValueRoots(values);
    }
  }

  /** Executing one instruction from agreeing machines reads the same words and leaves them agreeing on what is live
      after it. */
  lemma InstructionAgrees<W, H>(p: Program<W, H>, instruction: Instruction, after: set<Root>,
                                plain: Machine<W, H>, emitted: Machine<W, H>)
    requires Agree(p, Before(FlowOf(instruction, p.roots), after), plain, emitted)
    requires !ReadsUnset(plain, instruction)
    ensures Operands(p, plain, instruction.data) == Operands(p, emitted, instruction.data)
    ensures ReadSymbol(p, plain, SymbolRead(instruction.data)) == ReadSymbol(p, emitted, SymbolRead(instruction.data))
    ensures Agree(p, after, ExecuteInstruction(p, plain, instruction), ExecuteInstruction(p, emitted, instruction))
  {
    var data := instruction.data;
    OperandsAgree(p, instruction, Before(FlowOf(instruction, p.roots), after), plain, emitted);
    var effect := p.semantics.execute(instruction, Operands(p, plain, data), ReadSymbol(p, plain, SymbolRead(data)),
                                      plain.world);
    var a, b := StoreLocal(p, plain, data, effect.stored), StoreLocal(p, emitted, data, effect.stored);
    var middle := after - ValueRoots(Listed(instruction.result) + Listed(ErrorResult(instruction)));
    StoreAgrees(p, instruction, middle, plain, emitted, effect.stored);
    DefineAgrees(p, middle, a, b, instruction.result, effect.result);
    var a2, b2 := Define(p, a, instruction.result, effect.result), Define(p, b, instruction.result, effect.result);
    CallAgrees(p, instruction, middle + ValueRoots(Listed(instruction.result)), a2, b2, effect);
    AgreeLess(p, after, middle + ValueRoots(Listed(instruction.result)) + ValueRoots(Listed(ErrorResult(instruction))),
              DefineCall(p, a2, data, effect), DefineCall(p, b2, data, effect));
  }

  lemma OperandsAgree<W, H>(p: Program<W, H>, instruction: Instruction, live: set<Root>, plain: Machine<W, H>,
                            emitted: Machine<W, H>)
    requires Agree(p, live, plain, emitted) && Uses(instruction) * p.roots <= live && !ReadsUnset(plain, instruction)
    ensures Operands(p, plain, instruction.data) == Operands(p, emitted, instruction.data)
    ensures ReadSymbol(p, plain, SymbolRead(instruction.data)) == ReadSymbol(p, emitted, SymbolRead(instruction.data))
  {
    OperandsAreUses(p, plain, instruction);
    OperandsAreUses(p, emitted, instruction);
    ReadsAgree(p, live, plain, emitted, InstructionUses(instruction));
    var symbol := StorageSymbolUse(instruction);
    if symbol.Some? {
      assert Symbol(symbol.value) in Uses(instruction);
    }
  }

  lemma CallAgrees<W, H>(p: Program<W, H>, instruction: Instruction, live: set<Root>, plain: Machine<W, H>,
                         emitted: Machine<W, H>, effect: Effect<W, H>)
    requires Agree(p, live, plain, emitted)
    ensures Agree(p, live + ValueRoots(Listed(ErrorResult(instruction))),
                  DefineCall(p, plain, instruction.data, effect),
                  DefineCall(p, emitted, instruction.data, effect))
  {
    if instruction.data.Call? {
      var Call(_, _, success, error) := instruction.data;
      var a, b := Define(p, plain, success, effect.success), Define(p, emitted, success, effect.success);
      DefineAgrees(p, live, plain, emitted, success, effect.success);
      AgreeLess(p, live, live + ValueRoots(Listed(success)), a, b);
      DefineAgrees(p, live, a, b, error, effect.error);
    }
  }

  lemma AgreeLess<W, H>(p: Program<W, H>, live: set<Root>, more: set<Root>, plain: Machine<W, H>,
                        emitted: Machine<W, H>)
    requires Agree(p, more, plain, emitted) && live <= more
    ensures Agree(p, live, plain, emitted)
  {
  }

  lemma StoreAgrees<W, H>(p: Program<W, H>, instruction: Instruction, live: set<Root>, plain: Machine<W, H>,
                          emitted: Machine<W, H>, stored: W)
    requires Operands(p, plain, instruction.data) == Operands(p, emitted, instruction.data)
    requires Agree(p, live - SymbolRoot(DeclaredOrStored(instruction)), plain, emitted)
    ensures Agree(p, live, StoreLocal(p, plain, instruction.data, stored),
                  StoreLocal(p, emitted, instruction.data, stored))
  {
    var w, data := p.semantics.nullWord, instruction.data;
    var a, b := StoreLocal(p, plain, data, stored), StoreLocal(p, emitted, data, stored);
    if data.StoreSymbol? {
      assert Operands(p, plain, data)[0] == Operands(p, emitted, data)[0];
    }
    if data.DeclareLocal? && data.initializer.Some? {
      assert Operands(p, plain, data)[0] == Operands(p, emitted, data)[0];
    }
    forall r | r !in p.roots || (r in live && Readable(a.unset, r)) ensures Slot(a.slots, r, w) == Slot(b.slots, r, w) {
      if SymbolRoot(DeclaredOrStored(instruction)) != {r} {
        assert Readable(a.unset, r) ==> Readable(plain.unset, r);
      }
    }
  }

  lemma DefineAgrees<W, H>(p: Program<W, H>, live: set<Root>, plain: Machine<W, H>, emitted: Machine<W, H>,
                           v: Option<ValueId>, w: W)
    requires Agree(p, live, plain, emitted)
    ensures Agree(p, live + ValueRoots(Listed(v)), Define(p, plain, v, w), Define(p, emitted, v, w))
  {
  }

  lemma ClearAgrees<W, H>(p: Program<W, H>, live: set<Root>, plain: Machine<W, H>, emitted: Machine<W, H>,
                          clears: set<Root>)
    requires Agree(p, live, plain, emitted) && clears <= p.roots - live
    ensures Agree(p, live, Clear(plain, {}), Clear(emitted, clears))
  {
  }

  lemma ScalarSlot<W, H>(p: Program<W, H>, m: Machine<W, H>, moves: map<ValueId, ValueId>, r: Root)
    ensures Slot(MoveScalars(p, m, moves).slots, r, p.semantics.nullWord)
         == if r.Value? && r.value in moves && r.value !in p.aggregates && r in p.roots
            then Register(m, moves[r.value], p.semantics.nullWord) else Slot(m.slots, r, p.semantics.nullWord)
  {
  }

  lemma AggregateSlot<W>(slots: map<Root, W>, moves: map<ValueId, ValueId>, aggregates: set<ValueId>, nullWord: W,
                         r: Root)
    ensures Slot(MoveAggregates(slots, moves, aggregates, nullWord), r, nullWord)
         == Moved(slots, moves, aggregates, nullWord, r)
  {
  }

  /** What leaves the predecessor covers what the phis read and what they pass by. */
  ghost predicate EdgeCovers(roots: set<Root>, moves: map<ValueId, ValueId>, out: set<Root>, after: set<Root>) {
    && (forall v | v in moves :: Value(moves[v]) in roots ==> Value(moves[v]) in out)
    && (forall r | r in after && r in roots :: (r.Value? && r.value in moves) || r in out)
  }

  /** Arriving over an edge from agreeing machines leaves them agreeing on what is live after the phis. */
  lemma ArriveAgrees<W, H>(p: Program<W, H>, phis: seq<Instruction>, predecessor: BlockId, out: set<Root>,
                           after: set<Root>,
                           clears: set<Root>, plain: Machine<W, H>, emitted: Machine<W, H>)
    requires PhisCover(phis, predecessor) && EdgeCovers(p.roots, Moves(phis, predecessor), out, after)
    requires Agree(p, out, plain, emitted) && clears <= p.roots - after
    ensures Agree(p, after, Arrive(p, plain, Moves(phis, predecessor)),
                  ArriveEmitted(p, emitted, phis, predecessor, clears))
  {
    var w := p.semantics.nullWord;
    TwoPhaseIsSimultaneous(emitted.slots, phis, predecessor, p.aggregates, w);
    var scratch := CopyIn(emitted.slots, phis, predecessor, p.aggregates, w, map[]);
    var slots := CopyOut(emitted.slots, phis, p.aggregates, w, scratch).0;
    MovesAgree(p, Moves(phis, predecessor), out, after, plain, emitted, slots);
    var arrived := Arrive(p, plain, Moves(phis, predecessor));
    ClearAgrees(p, after, arrived, MoveScalars(p, emitted.(slots := slots), Moves(phis, predecessor)), clears);
    assert arrived.slots - {} == arrived.slots;
  }

  lemma MovesAgree<W, H>(p: Program<W, H>, moves: map<ValueId, ValueId>, out: set<Root>, after: set<Root>,
                         plain: Machine<W, H>, emitted: Machine<W, H>, slots: map<Root, W>)
    requires EdgeCovers(p.roots, moves, out, after) && Agree(p, out, plain, emitted)
    requires forall r ::
              Slot(slots, r, p.semantics.nullWord) == Moved(emitted.slots, moves, p.aggregates, p.semantics.nullWord, r)
    ensures Agree(p, after, Arrive(p, plain, moves), MoveScalars(p, emitted.(slots := slots), moves))
  {
    var w := p.semantics.nullWord;
    var arrived, copied := Arrive(p, plain, moves), MoveScalars(p, emitted.(slots := slots), moves);
    RegistersArrive(p, moves, plain, emitted, slots);
    forall r | r !in p.roots || (r in after && Readable(plain.unset, r))
      ensures Slot(arrived.slots, r, w) == Slot(copied.slots, r, w)
    {
      SlotArrives(p, moves, out, after, plain, emitted, slots, r);
    }
  }

  lemma RegistersArrive<W, H>(p: Program<W, H>, moves: map<ValueId, ValueId>, plain: Machine<W, H>,
                              emitted: Machine<W, H>, slots: map<Root, W>)
    requires plain.registers == emitted.registers && plain.unset == emitted.unset && plain.world == emitted.world
    ensures var arrived, copied := Arrive(p, plain, moves), MoveScalars(p, emitted.(slots := slots), moves);
            && arrived.registers == copied.registers && arrived.unset == copied.unset == plain.unset
            && arrived.world == copied.world
  {
    assert forall v :: Register(plain, v, p.semantics.nullWord) == Register(emitted, v, p.semantics.nullWord);
  }

  lemma SlotArrives<W, H>(p: Program<W, H>, moves: map<ValueId, ValueId>, out: set<Root>, after: set<Root>,
                          plain: Machine<W, H>, emitted: Machine<W, H>, slots: map<Root, W>, r: Root)
    requires EdgeCovers(p.roots, moves, out, after) && Agree(p, out, plain, emitted)
    requires Slot(slots, r, p.semantics.nullWord) == Moved(emitted.slots, moves, p.aggregates, p.semantics.nullWord, r)
    requires r !in p.roots || (r in after && Readable(plain.unset, r))
    ensures Slot(Arrive(p, plain, moves).slots, r, p.semantics.nullWord)
         == Slot(MoveScalars(p, emitted.(slots := slots), moves).slots, r, p.semantics.nullWord)
  {
    var w := p.semantics.nullWord;
    ScalarSlot(p, plain.(slots := MoveAggregates(plain.slots, moves, p.aggregates, w)), moves, r);
    ScalarSlot(p, emitted.(slots := slots), moves, r);
    AggregateSlot(plain.slots, moves, p.aggregates, w, r);
    if !(r.Value? && r.value in moves && r.value !in p.aggregates && r in p.roots) {
      MovedAgrees(p, moves, out, after, plain, emitted, r);
    }
  }

  lemma MovedAgrees<W, H>(p: Program<W, H>, moves: map<ValueId, ValueId>, out: set<Root>, after: set<Root>,
                          plain: Machine<W, H>, emitted: Machine<W, H>, r: Root)
    requires EdgeCovers(p.roots, moves, out, after) && Agree(p, out, plain, emitted)
    requires r !in p.roots || (r in after && Readable(plain.unset, r))
    requires !(r.Value? && r.value in moves && r.value !in p.aggregates && r in p.roots)
    ensures Moved(plain.slots, moves, p.aggregates, p.semantics.nullWord, r)
         == Moved(emitted.slots, moves, p.aggregates, p.semantics.nullWord, r)
  {
  }

  /** The tables cover every edge. */
  lemma EdgeIsCovered(body: Body, roots: set<Root>, t: Tables, b: BlockId, next: BlockId)
    requires Shaped(body, t) && InRange(body, b) && IsReachable(body, next)
    requires ConsistentAt(body, roots, t, b) && ConsistentAt(body, roots, t, next)
    requires next in Successors(body.blocks[b].terminator) && PhisCover(Phis(body.blocks[next]), b)
    ensures EdgeCovers(roots, Moves(Phis(body.blocks[next]), b), t.liveOut[b], t.afterPhis[next])
  {
    var moves := Moves(Phis(body.blocks[next]), b);
    forall v | v in moves && Value(moves[v]) in roots ensures Value(moves[v]) in t.liveOut[b] {
      MoveIsPhiUse(body.blocks[next], b, v);
      FlowsOut(body, roots, t, b, next, Value(moves[v]));
    }
    forall r | r in t.afterPhis[next] && r in roots && !(r.Value? && r.value in moves) ensures r in t.liveOut[b] {
      PhisKeepLive(body, roots, t, b, next, r);
    }
  }

  lemma {:induction false} MoveIsIncoming(phis: seq<Instruction>, predecessor: BlockId, v: ValueId)
    requires forall k :: 0 <= k < |phis| ==> phis[k].data.Phi?
    requires v in Moves(phis, predecessor)
    ensures exists k, j :: 0 <= k < |phis| && 0 <= j < |phis[k].data.incoming|
              && phis[k].data.incoming[j] == PhiIncoming(predecessor, Moves(phis, predecessor)[v])
  {
    var source := IncomingFrom(phis[0].data.incoming, predecessor);
    if phis[0].result == Some(v) && source.Some? {
      var j := IncomingIndex(phis[0].data.incoming, predecessor);
      assert phis[0].data.incoming[j] == PhiIncoming(predecessor, Moves(phis, predecessor)[v]);
    } else {
      MoveIsIncoming(phis[1..], predecessor, v);
      var k, j :| 0 <= k < |phis[1..]| && 0 <= j < |phis[1..][k].data.incoming|
               && phis[1..][k].data.incoming[j] == PhiIncoming(predecessor, Moves(phis, predecessor)[v]);
      assert phis[k + 1].data.incoming[j] == PhiIncoming(predecessor, Moves(phis, predecessor)[v]);
    }
  }

  lemma {:induction false} IncomingIndex(incoming: seq<PhiIncoming>, predecessor: BlockId) returns (j: nat)
    requires IncomingFrom(incoming, predecessor).Some?
    ensures j < |incoming| && incoming[j] == PhiIncoming(predecessor, IncomingFrom(incoming, predecessor).value)
  {
    if incoming[0].predecessor == predecessor {
      j := 0;
    } else {
      var rest := IncomingIndex(incoming[1..], predecessor);
      j := rest + 1;
    }
  }

  lemma MoveIsPhiUse(block: Block, predecessor: BlockId, v: ValueId)
    requires v in Moves(Phis(block), predecessor)
    ensures Value(Moves(Phis(block), predecessor)[v]) in PhiUses(block, predecessor)
  {
    var phis := Phis(block);
    MoveIsIncoming(phis, predecessor, v);
    var k, j :| 0 <= k < |phis| && 0 <= j < |phis[k].data.incoming|
             && phis[k].data.incoming[j] == PhiIncoming(predecessor, Moves(phis, predecessor)[v]);
    assert block.instructions[k] == phis[k];
  }

  lemma FlowsOut(body: Body, roots: set<Root>, t: Tables, b: BlockId, next: BlockId, r: Root)
    requires Shaped(body, t) && InRange(body, b) && IsReachable(body, next) && ConsistentAt(body, roots, t, b)
    requires next in Successors(body.blocks[b].terminator)
    requires r in t.liveIn[next] || (r in roots && r in PhiUses(body.blocks[next], b))
    ensures r in t.liveOut[b]
  {
    LiveOutMember(body, b, Successors(body.blocks[b].terminator), roots, t.liveIn, r);
  }

  lemma PhisLeaveAlone(block: Block, predecessor: BlockId, r: Root, k: nat)
    requires PhisCover(Phis(block), predecessor)
    requires r.Value? ==> r.value !in Moves(Phis(block), predecessor)
    requires k < LeadingPhis(block.instructions)
    ensures r !in Definitions(block.instructions[k])
  {
    MovesKeys(Phis(block), predecessor);
    assert Phis(block)[k] == block.instructions[k];
    var v := block.instructions[k].result.value;
    assert Phis(block)[k].result == Some(v);
    assert Definitions(block.instructions[k]) == {Value(v)};
  }

  /** What is live after the phis and not written by them was live on the way out of the predecessor. */
  lemma PhisKeepLive(body: Body, roots: set<Root>, t: Tables, b: BlockId, next: BlockId, r: Root)
    requires Shaped(body, t) && InRange(body, b) && IsReachable(body, next)
    requires ConsistentAt(body, roots, t, b) && ConsistentAt(body, roots, t, next)
    requires next in Successors(body.blocks[b].terminator) && PhisCover(Phis(body.blocks[next]), b)
    requires r in t.afterPhis[next]
    requires r.Value? ==> r.value !in Moves(Phis(body.blocks[next]), b)
    ensures r in t.liveOut[b]
  {
    var block := body.blocks[next];
    forall k | 0 <= k < LeadingPhis(block.instructions) ensures r !in Definitions(block.instructions[k]) {
      PhisLeaveAlone(block, b, r, k);
    }
    ScanDownPhis(body, roots, t.liveOut, next, r);
    FlowsOut(body, roots, t, b, next, r);
  }

  lemma ScanDownPhis(body: Body, roots: set<Root>, liveOut: seq<set<Root>>, b: BlockId, r: Root)
    requires |liveOut| == |body.blocks| && InRange(body, b)
    requires forall k :: 0 <= k < LeadingPhis(body.blocks[b].instructions) ==>
              r !in Definitions(body.blocks[b].instructions[k])
    requires r in ScanAt(body, roots, liveOut, b, LeadingPhis(body.blocks[b].instructions))
    ensures r in ScanAt(body, roots, liveOut, b, 0)
  {
    ScanDown(Flows(body.blocks[b].instructions, roots), 0, LeadingPhis(body.blocks[b].instructions),
             liveOut[b] + TerminatorRoots(body.blocks[b], roots), r);
  }

  /** What is live at a point is live before it as far as nothing overwrites it. */
  lemma {:induction false} ScanDown(flows: seq<Flow>, i: nat, j: nat, atEnd: set<Root>, r: Root)
    requires i <= j <= |flows| && forall k :: i <= k < j ==> r !in flows[k].definitions
    requires r in Scan(flows, j, atEnd)
    ensures r in Scan(flows, i, atEnd)
    decreases j - i
  {
    if i < j {
      ScanDown(flows, i + 1, j, atEnd, r);
      ScanMember(flows, i, atEnd, r);
    }
  }

  lemma ExecuteMirrors<W, H>(p: Program<W, H>, m: Machine<W, H>, instruction: Instruction)
    requires Mirrored(p, m)
    ensures Mirrored(p, Clear(ExecuteInstruction(p, m, instruction), {}))
  {
    var data := instruction.data;
    var effect := p.semantics.execute(instruction, Operands(p, m, data), ReadSymbol(p, m, SymbolRead(data)), m.world);
    var stored := StoreLocal(p, m, data, effect.stored);
    assert Mirrored(p, stored);
    DefineMirrors(p, stored, instruction.result, effect.result);
    var defined := Define(p, stored, instruction.result, effect.result);
    if data.Call? {
      DefineMirrors(p, defined, data.success, effect.success);
      DefineMirrors(p, Define(p, defined, data.success, effect.success), data.errorResult, effect.error);
    }
    var last := DefineCall(p, defined, data, effect);
    assert last.slots - {} == last.slots;
  }

  lemma DefineMirrors<W, H>(p: Program<W, H>, m: Machine<W, H>, v: Option<ValueId>, w: W)
    requires Mirrored(p, m)
    ensures Mirrored(p, Define(p, m, v, w))
  {
  }

  lemma ArriveMirrors<W, H>(p: Program<W, H>, m: Machine<W, H>, moves: map<ValueId, ValueId>)
    requires Mirrored(p, m)
    ensures Mirrored(p, Arrive(p, m, moves))
  {
  }

  /** One instruction with the clears after it. */
  lemma ClearedInstructionAgrees<W, H>(p: Program<W, H>, instruction: Instruction, after: set<Root>, clears: set<Root>,
                                       plain: Machine<W, H>, emitted: Machine<W, H>)
    requires Agree(p, Before(FlowOf(instruction, p.roots), after), plain, emitted) && Mirrored(p, plain)
    requires !ReadsUnset(plain, instruction) && clears <= p.roots - after
    ensures Agree(p, after, Clear(ExecuteInstruction(p, plain, instruction), {}),
                  Clear(ExecuteInstruction(p, emitted, instruction), clears))
    ensures Mirrored(p, Clear(ExecuteInstruction(p, plain, instruction), {}))
  {
    InstructionAgrees(p, instruction, after, plain, emitted);
    ClearAgrees(p, after, ExecuteInstruction(p, plain, instruction), ExecuteInstruction(p, emitted, instruction),
                clears);
    ExecuteMirrors(p, plain, instruction);
  }

  lemma ScanAtStep(body: Body, roots: set<Root>, t: Tables, b: BlockId, i: nat)
    requires Shaped(body, t) && InRange(body, b) && i < |body.blocks[b].instructions| && ConsistentAt(body, roots, t, b)
    ensures ScanAt(body, roots, t.liveOut, b, i)
         == Before(FlowOf(body.blocks[b].instructions[i], roots), t.afterInstructions[b][i])
  {
  }

  lemma InstructionKeepsLockstep<W, H>(p: Program<W, H>, t: Tables, plain: Config<W, H>, emitted: Config<W, H>)
    requires Shaped(p.body, t) && Lockstep(p, t, plain, emitted)
    requires ConsistentAt(p.body, p.roots, t, plain.block)
    requires plain.status.Running? && plain.index < |p.body.blocks[plain.block].instructions|
    ensures Lockstep(p, t, Step(p, None, plain), Step(p, Some(t), emitted))
  {
    if ReadsUnset(plain.machine, p.body.blocks[plain.block].instructions[plain.index]) {
      StepSticks(p, None, plain);
      StepSticks(p, Some(t), emitted);
      StuckInLockstep(p, t, plain, emitted);
    } else {
      StepExecutes(p, None, plain);
      StepExecutes(p, Some(t), emitted);
      ExecutedInLockstep(p, t, plain.block, plain.index, plain, emitted);
    }
  }

  lemma ExecutedInLockstep<W, H>(p: Program<W, H>, t: Tables, b: BlockId, i: nat, plain: Config<W, H>,
                                 emitted: Config<W, H>)
    requires InRange(p.body, b) && Shaped(p.body, t) && Lockstep(p, t, plain, emitted)
    requires ConsistentAt(p.body, p.roots, t, b)
    requires b == plain.block == emitted.block && i == plain.index == emitted.index < |p.body.blocks[b].instructions|
    requires !ReadsUnset(plain.machine, p.body.blocks[b].instructions[i])
    ensures Lockstep(p, t, Config(b, i + 1, Executed(p, None, plain), Running),
                     Config(b, i + 1, Executed(p, Some(t), emitted), Running))
  {
    var a, c := Executed(p, None, plain), Executed(p, Some(t), emitted);
    PointOf(p, t, plain, emitted);
    ExecutedAgree(p, t, b, i, plain, emitted);
    InLockstep(p, t, b, i + 1, a, c);
  }

  lemma PointOf<W, H>(p: Program<W, H>, t: Tables, plain: Config<W, H>, emitted: Config<W, H>)
    requires Shaped(p.body, t) && Lockstep(p, t, plain, emitted)
    ensures IsReachable(p.body, plain.block) && plain.index <= |p.body.blocks[plain.block].instructions|
    ensures LeadingPhis(p.body.blocks[plain.block].instructions) <= plain.index
    ensures Agree(p, ScanAt(p.body, p.roots, t.liveOut, plain.block, plain.index), plain.machine, emitted.machine)
    ensures Mirrored(p, plain.machine)
  {
  }

  lemma StuckInLockstep<W, H>(p: Program<W, H>, t: Tables, plain: Config<W, H>, emitted: Config<W, H>)
    requires Shaped(p.body, t) && Lockstep(p, t, plain, emitted)
    ensures Lockstep(p, t, plain.(status := Stuck), emitted.(status := Stuck))
  {
  }

  lemma ExecutedAgree<W, H>(p: Program<W, H>, t: Tables, b: BlockId, i: nat, plain: Config<W, H>,
                            emitted: Config<W, H>)
    requires Shaped(p.body, t) && InRange(p.body, b) && ConsistentAt(p.body, p.roots, t, b)
    requires b == plain.block == emitted.block && i == plain.index == emitted.index < |p.body.blocks[b].instructions|
    requires !ReadsUnset(plain.machine, p.body.blocks[b].instructions[i]) && Mirrored(p, plain.machine)
    requires Agree(p, ScanAt(p.body, p.roots, t.liveOut, b, i), plain.machine, emitted.machine)
    ensures Agree(p, ScanAt(p.body, p.roots, t.liveOut, b, i + 1), Executed(p, None, plain),
                  Executed(p, Some(t), emitted))
    ensures Mirrored(p, Executed(p, None, plain))
  {
    ScanAtStep(p.body, p.roots, t, b, i);
    ScanAfterStep(p.body, p.roots, t, b, i);
    ClearsAreDead(p, t, b, i);
    ClearedInstructionAgrees(p, p.body.blocks[b].instructions[i], t.afterInstructions[b][i],
                             ClearsAfter(p, Some(t), b, i), plain.machine, emitted.machine);
  }

  lemma ScanAfterStep(body: Body, roots: set<Root>, t: Tables, b: BlockId, i: nat)
    requires Shaped(body, t) && InRange(body, b) && i < |body.blocks[b].instructions| && ConsistentAt(body, roots, t, b)
    ensures t.afterInstructions[b][i] == ScanAt(body, roots, t.liveOut, b, i + 1)
  {
  }

  lemma ClearsAreDead<W, H>(p: Program<W, H>, t: Tables, b: BlockId, i: nat)
    requires Shaped(p.body, t) && InRange(p.body, b) && i < |p.body.blocks[b].instructions|
    ensures ClearsAfter(p, None, b, i) == {}
    ensures ClearsAfter(p, Some(t), b, i) <= p.roots - t.afterInstructions[b][i]
  {
  }

  lemma InLockstep<W, H>(p: Program<W, H>, t: Tables, b: BlockId, i: nat, plain: Machine<W, H>, emitted: Machine<W, H>)
    requires Shaped(p.body, t) && IsReachable(p.body, b)
    requires LeadingPhis(p.body.blocks[b].instructions) <= i <= |p.body.blocks[b].instructions|
    requires Agree(p, ScanAt(p.body, p.roots, t.liveOut, b, i), plain, emitted) && Mirrored(p, plain)
    ensures Lockstep(p, t, Config(b, i, plain, Running), Config(b, i, emitted, Running))
  {
  }

  ghost function ClearsAfter<W, H>(p: Program<W, H>, t: Option<Tables>, b: BlockId, i: nat): set<Root>
    requires InRange(p.body, b) && i < |p.body.blocks[b].instructions| && (t.Some? ==> Shaped(p.body, t.value))
  {
    if t.None? then {} else DeadRoots(p.body.blocks[b].instructions[i], p.roots, t.value.afterInstructions[b][i])
  }

  /** The machine after the next instruction and the clears that follow it. */
  ghost function Executed<W, H>(p: Program<W, H>, t: Option<Tables>, c: Config<W, H>): Machine<W, H>
    requires InRange(p.body, c.block) && c.index < |p.body.blocks[c.block].instructions|
    requires t.Some? ==> Shaped(p.body, t.value)
  {
    Clear(ExecuteInstruction(p, c.machine, p.body.blocks[c.block].instructions[c.index]),
          ClearsAfter(p, t, c.block, c.index))
  }

  lemma StepExecutes<W, H>(p: Program<W, H>, t: Option<Tables>, c: Config<W, H>)
    requires (t.Some? ==> Shaped(p.body, t.value)) && c.status.Running? && InRange(p.body, c.block)
    requires c.index < |p.body.blocks[c.block].instructions|
    requires !ReadsUnset(c.machine, p.body.blocks[c.block].instructions[c.index])
    ensures Step(p, t, c) == Config(c.block, c.index + 1, Executed(p, t, c), Running)
  {
  }

  lemma StepSticks<W, H>(p: Program<W, H>, t: Option<Tables>, c: Config<W, H>)
    requires (t.Some? ==> Shaped(p.body, t.value)) && c.status.Running? && InRange(p.body, c.block)
    requires c.index < |p.body.blocks[c.block].instructions|
    requires ReadsUnset(c.machine, p.body.blocks[c.block].instructions[c.index])
    ensures Step(p, t, c) == c.(status := Stuck)
  {
  }

  lemma TerminatorKeepsLockstep<W, H>(p: Program<W, H>, t: Tables, plain: Config<W, H>, emitted: Config<W, H>)
    requires Shaped(p.body, t) && Consistent(p.body, p.roots, t) && Lockstep(p, t, plain, emitted)
    requires WellFormedAt(p.body, plain.block)
    requires plain.status.Running? && plain.index == |p.body.blocks[plain.block].instructions|
    ensures Lockstep(p, t, Step(p, None, plain), Step(p, Some(t), emitted))
  {
    var b := plain.block;
    var terminator := p.body.blocks[b].terminator;
    assert ConsistentAt(p.body, p.roots, t, b);
    WordsAreUses(p, plain.machine, terminator);
    WordsAreUses(p, emitted.machine, terminator);
    ReadsAgree(p, ScanAt(p.body, p.roots, t.liveOut, b, plain.index), plain.machine, emitted.machine,
               TerminatorUses(terminator));
    TargetsAgree(p, plain.machine, emitted.machine, terminator);
    var target := Target(p, plain.machine, terminator);
    if target.Some? {
      var next := target.value;
      assert next in Successors(terminator) && ConsistentAt(p.body, p.roots, t, next);
      EdgeIsCovered(p.body, p.roots, t, b, next);
      ArriveAgrees(p, Phis(p.body.blocks[next]), b, t.liveOut[b], t.afterPhis[next],
                   EntryClears(p.body, p.parameters, p.roots, t, next), plain.machine, emitted.machine);
      ArriveMirrors(p, plain.machine, Moves(Phis(p.body.blocks[next]), b));
    }
  }

  /** Machines from which a terminator reads the same words go the same way, to a successor. */
  lemma TargetsAgree<W, H>(p: Program<W, H>, plain: Machine<W, H>, emitted: Machine<W, H>, terminator: Terminator)
    requires TerminatorWords(p, plain, terminator) == TerminatorWords(p, emitted, terminator)
    ensures Target(p, plain, terminator) == Target(p, emitted, terminator)
    ensures Target(p, plain, terminator).Some? ==> Target(p, plain, terminator).value in Successors(terminator)
  {
    if terminator.Branch? || terminator.Switch? {
      assert TerminatorWords(p, plain, terminator)[0] == TerminatorWords(p, emitted, terminator)[0];
    }
    var target := Target(p, plain, terminator);
    if target.Some? {
      SuccessorsAreChosen(terminator, target.value);
    }
  }

  lemma StepKeepsLockstep<W, H>(p: Program<W, H>, t: Tables, plain: Config<W, H>, emitted: Config<W, H>)
    requires WellFormed(p.body) && Shaped(p.body, t) && Consistent(p.body, p.roots, t)
    requires Lockstep(p, t, plain, emitted)
    ensures Lockstep(p, t, Step(p, None, plain), Step(p, Some(t), emitted))
  {
    assert ConsistentAt(p.body, p.roots, t, plain.block) && WellFormedAt(p.body, plain.block);
    if plain.status.Running? {
      if plain.index < |p.body.blocks[plain.block].instructions| {
        InstructionKeepsLockstep(p, t, plain, emitted);
      } else {
        TerminatorKeepsLockstep(p, t, plain, emitted);
      }
    }
  }

  lemma StartsInLockstep<W, H>(p: Program<W, H>, t: Tables, m: Machine<W, H>)
    requires WellFormed(p.body) && Shaped(p.body, t) && Consistent(p.body, p.roots, t)
    requires Mirrored(p, m)
    ensures Lockstep(p, t, Start(p, None, m), Start(p, Some(t), m))
  {
    assert ConsistentAt(p.body, p.roots, t, p.body.entry);
    ClearAgrees(p, t.afterPhis[p.body.entry], m, m, EntryClears(p.body, p.parameters, p.roots, t, p.body.entry));
    assert m.slots - {} == m.slots;
  }

  /** Over any number of steps of any program under any instruction semantics, the emitted body and
      the body that never clears are at the same point with the same registers, and every live slot
      still holds what was last written to it. */
  lemma {:induction false} ClearsAreInvisible<W, H>(p: Program<W, H>, t: Tables, m: Machine<W, H>, steps: nat)
    requires WellFormed(p.body) && Shaped(p.body, t) && Consistent(p.body, p.roots, t)
    requires Mirrored(p, m)
    ensures Lockstep(p, t, Run(p, None, m, steps), Run(p, Some(t), m, steps))
  {
    StartsInLockstep(p, t, m);
    for k := 0 to steps
      invariant Lockstep(p, t, Run(p, None, m, k), Run(p, Some(t), m, k))
    {
      StepKeepsLockstep(p, t, Run(p, None, m, k), Run(p, Some(t), m, k));
    }
  }

  /** The words that the next action of a configuration reads. */
  function NextWords<W, H>(p: Program<W, H>, c: Config<W, H>): seq<W> {
    if !InRange(p.body, c.block) then []
    else if c.index < |p.body.blocks[c.block].instructions|
    then Operands(p, c.machine, p.body.blocks[c.block].instructions[c.index].data)
    else TerminatorWords(p, c.machine, p.body.blocks[c.block].terminator)
  }

  /** The symbol it reads, if any. */
  function NextSymbol<W, H>(body: Body, c: Config<W, H>): Option<SymbolId> {
    if InRange(body, c.block) && c.index < |body.blocks[c.block].instructions|
    then SymbolRead(body.blocks[c.block].instructions[c.index].data) else None
  }

  /** Read at the next action: whatever words it takes from values and whatever symbol it reads, it finds unharmed. */
  lemma NextActionIsUnharmed<W, H>(p: Program<W, H>, t: Tables, m: Machine<W, H>, steps: nat)
    requires WellFormed(p.body) && Shaped(p.body, t) && Consistent(p.body, p.roots, t)
    requires Mirrored(p, m)
    ensures var plain, emitted := Run(p, None, m, steps), Run(p, Some(t), m, steps);
            var symbol := NextSymbol(p.body, emitted);
            && NextWords(p, emitted) == NextWords(p, plain) && NextSymbol(p.body, plain) == symbol
            && (symbol.Some? && symbol.value !in plain.machine.unset ==>
                  ReadSymbol(p, emitted.machine, symbol) == ReadSymbol(p, plain.machine, symbol))
  {
    ClearsAreInvisible(p, t, m, steps);
    var plain, emitted := Run(p, None, m, steps), Run(p, Some(t), m, steps);
    var live := ScanAt(p.body, p.roots, t.liveOut, emitted.block, emitted.index);
    var block := p.body.blocks[emitted.block];
    if emitted.index < |block.instructions| {
      NextInstructionAgrees(p, t, plain, emitted);
    } else {
      WordsAreUses(p, plain.machine, block.terminator);
      WordsAreUses(p, emitted.machine, block.terminator);
      ReadsAgree(p, live, plain.machine, emitted.machine, TerminatorUses(block.terminator));
    }
  }

  lemma NextInstructionAgrees<W, H>(p: Program<W, H>, t: Tables, plain: Config<W, H>, emitted: Config<W, H>)
    requires Shaped(p.body, t) && Lockstep(p, t, plain, emitted)
    requires emitted.index < |p.body.blocks[emitted.block].instructions|
    ensures NextWords(p, emitted) == NextWords(p, plain)
    ensures var symbol := NextSymbol(p.body, emitted);
            symbol.Some? && symbol.value !in plain.machine.unset ==>
              ReadSymbol(p, emitted.machine, symbol) == ReadSymbol(p, plain.machine, symbol)
  {
    var live := ScanAt(p.body, p.roots, t.liveOut, emitted.block, emitted.index);
    var instruction := p.body.blocks[emitted.block].instructions[emitted.index];
    OperandsAreUses(p, plain.machine, instruction);
    OperandsAreUses(p, emitted.machine, instruction);
    assert Uses(instruction) * p.roots <= live;
    ReadsAgree(p, live, plain.machine, emitted.machine, InstructionUses(instruction));
    var symbol := SymbolRead(instruction.data);
    if symbol.Some? && symbol.value !in plain.machine.unset {
      assert Symbol(symbol.value) in Uses(instruction);
      SlotAgrees(p, live, plain.machine, emitted.machine, Symbol(symbol.value));
    }
  }

  lemma SlotAgrees<W, H>(p: Program<W, H>, live: set<Root>, plain: Machine<W, H>, emitted: Machine<W, H>, r: Root)
    requires Agree(p, live, plain, emitted) && (r !in p.roots || (r in live && Readable(plain.unset, r)))
    ensures Slot(emitted.slots, r, p.semantics.nullWord) == Slot(plain.slots, r, p.semantics.nullWord)
  {
  }

  /** Past the phis of a block, what the scans hold is what is live. */
  lemma LiveIsScanned(body: Body, roots: set<Root>, t: Tables, b: BlockId, i: nat, r: Root)
    requires Shaped(body, t) && Exact(body, roots, t) && Consistent(body, roots, t) && IsReachable(body, b)
    requires r in roots
    requires LeadingPhis(body.blocks[b].instructions) <= i <= |body.blocks[b].instructions|
    ensures r in ScanAt(body, roots, t.liveOut, b, i) <==> LiveAt(body, Point(b, i), r)
  {
    assert ExactAt(body, t, b, r) && ConsistentAt(body, roots, t, b);
    if i > LeadingPhis(body.blocks[b].instructions) {
      ExactAfter(body, t, b, i, r);
      ConsistentAfter(body, roots, t, b, i);
    }
  }

  lemma ExactAfter(body: Body, t: Tables, b: BlockId, i: nat, r: Root)
    requires Shaped(body, t) && InRange(body, b) && ExactAt(body, t, b, r) && 0 < i <= |body.blocks[b].instructions|
    ensures r in t.afterInstructions[b][i - 1] <==> LiveAt(body, Point(b, i), r)
  {
  }

  lemma ConsistentAfter(body: Body, roots: set<Root>, t: Tables, b: BlockId, i: nat)
    requires Shaped(body, t) && InRange(body, b) && ConsistentAt(body, roots, t, b)
    requires 0 < i <= |body.blocks[b].instructions|
    ensures t.afterInstructions[b][i - 1] == ScanAt(body, roots, t.liveOut, b, i)
  {
  }

  /** If some path from here still uses the root, its slot holds what the body wrote last, for a value its word. */
  ghost predicate Seen<W, H>(p: Program<W, H>, plain: Config<W, H>, emitted: Config<W, H>, r: Root) {
    Readable(plain.machine.unset, r) && LiveAt(p.body, Point(plain.block, plain.index), r) ==>
      && Slot(emitted.machine.slots, r, p.semantics.nullWord) == Slot(plain.machine.slots, r, p.semantics.nullWord)
      && (r.Value? ==> Slot(emitted.machine.slots, r, p.semantics.nullWord) == Read(p, plain.machine, r.value))
  }

  lemma LockstepSees<W, H>(p: Program<W, H>, t: Tables, plain: Config<W, H>, emitted: Config<W, H>, r: Root)
    requires Shaped(p.body, t) && Consistent(p.body, p.roots, t) && Exact(p.body, p.roots, t)
    requires Lockstep(p, t, plain, emitted)
    requires r in p.roots
    ensures Seen(p, plain, emitted, r)
  {
    if Readable(plain.machine.unset, r) && LiveAt(p.body, Point(plain.block, plain.index), r) {
      LiveIsScanned(p.body, p.roots, t, plain.block, plain.index, r);
      SlotAgrees(p, ScanAt(p.body, p.roots, t.liveOut, plain.block, plain.index), plain.machine, emitted.machine, r);
    }
  }

  /** Read by a collection that starts at any point of any run: every root still in use is seen. */
  lemma LiveRootsAreSeen<W, H>(p: Program<W, H>, t: Tables, m: Machine<W, H>, steps: nat, r: Root)
    requires WellFormed(p.body) && Shaped(p.body, t) && Consistent(p.body, p.roots, t) && Exact(p.body, p.roots, t)
    requires Mirrored(p, m) && r in p.roots
    ensures Seen(p, Run(p, None, m, steps), Run(p, Some(t), m, steps), r)
  {
    ClearsAreInvisible(p, t, m, steps);
    LockstepSees(p, t, Run(p, None, m, steps), Run(p, Some(t), m, steps), r);
  }

  /** Root analysis and clear insertion together: the tables computed for a body make its clears invisible
      in every run. */
  method InsertClears<W(!new), H(!new)>(p: Program<W, H>) returns (t: Tables)
    requires WellFormed(p.body)
    ensures Shaped(p.body, t) && Exact(p.body, p.roots, t) && Consistent(p.body, p.roots, t)
    ensures forall m: Machine<W, H>, steps: nat | Mirrored(p, m) ::
              Lockstep(p, t, Run(p, None, m, steps), Run(p, Some(t), m, steps))
  {
    t := AnalyzeGcLiveness(p.body, p.roots);
    forall m: Machine<W, H>, steps: nat | Mirrored(p, m)
      ensures Lockstep(p, t, Run(p, None, m, steps), Run(p, Some(t), m, steps))
    {
      ClearsAreInvisible(p, t, m, steps);
    }
  }
}
