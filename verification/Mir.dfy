/** The part of the mid-level representation that root liveness looks at: blocks of
    instructions, what each reads and writes, and the edges between blocks. */
module Mir {
  import opened Wrappers

  type ValueId = nat
  type SymbolId = nat
  type BlockId = nat

  datatype StoragePath = StoragePath(symbol: Option<SymbolId>, base: Option<ValueId>, index: Option<ValueId>)

  datatype PhiIncoming = PhiIncoming(predecessor: BlockId, value: ValueId)

  /** The kinds of instruction, with the values and symbols they name. `Constant` stands for all that name none:
      literals, scalar constants, field initialization and the poison of unreachable code. */
  datatype InstructionData =
    | Constant
    | LoadSymbol(symbol: SymbolId)
    | DeclareLocal(symbol: SymbolId, initializer: Option<ValueId>)
    | StoreSymbol(symbol: SymbolId, value: ValueId)
    | LoadMember(object': ValueId)
    | StoreMember(object': ValueId, value: ValueId)
    | LoadStorage(path: StoragePath)
    | StoreStorage(path: StoragePath, value: ValueId)
    | ArrayLiteral(elements: seq<ValueId>)
    | ArrayAllocate(length: ValueId)
    | ArrayLoad(array': ValueId, index: ValueId)
    | ArrayStore(array': ValueId, index: ValueId, value: ValueId)
    | ArrayLength(array': ValueId)
    | StringMeta(text: ValueId)
    | StringSlice(text: ValueId, start: ValueId, end: ValueId)
    | StringScalarAt(text: ValueId, index: ValueId)
    | StringNextScalar(text: ValueId)
    | ObjectMeta(object': ValueId)
    | IntegerWrite(value: ValueId, destination: ValueId, offset: ValueId)
    | IntegerRead(source: ValueId, offset: ValueId)
    | Unary(operand: ValueId)
    | Binary(left: ValueId, right: ValueId)
    | NullableEqual(left: ValueId, right: ValueId)
    | Convert(value: ValueId)
    | Box(value: ValueId)
    | Unbox(value: ValueId)
    | IsNonNull(value: ValueId)
    | NullAssert(value: ValueId)
    | TypeTest(value: ValueId)
    | CheckedCast(value: ValueId)
    | Call(receiver: Option<ValueId>, arguments: seq<ValueId>, success: Option<ValueId>, errorResult: Option<ValueId>)
    | LoadCallResult(storage: ValueId)
    | Phi(incoming: seq<PhiIncoming>)

  /** `details` numbers what else an instruction says: its operator, types, members and callable. */
  datatype Instruction = Instruction(data: InstructionData, result: Option<ValueId>, details: nat)

  datatype Terminator =
    | Jump(target: BlockId)
    | Branch(condition: ValueId, thenBlock: BlockId, elseBlock: BlockId)
    | Switch(selector: ValueId, cases: seq<BlockId>, defaultBlock: BlockId, invalidBlock: Option<BlockId>)
    | Return(value: Option<ValueId>)
    | Raise(error: ValueId)
    | Unreachable
    | Trap

  datatype Block = Block(instructions: seq<Instruction>, terminator: Terminator, reachable: bool)

  datatype Body = Body(blocks: seq<Block>, entry: BlockId)

  /** A place the collector looks at: the slot of a temporary or of a named local. */
  datatype Root = Value(value: ValueId) | Symbol(symbol: SymbolId)

  function Listed(value: Option<ValueId>): seq<ValueId> {
    match value
    case None => []
    case Some(v) => [v]
  }

  function InstructionUses(instruction: Instruction): seq<ValueId> {
    match instruction.data
    case DeclareLocal(_, initializer) => Listed(initializer)
    case StoreSymbol(_, value) => [value]
    case LoadMember(object') => [object']
    case StoreMember(object', value) => [object', value]
    case LoadStorage(path) => Listed(path.base) + Listed(path.index)
    case StoreStorage(path, value) => [value] + Listed(path.base) + Listed(path.index)
    case ArrayLiteral(elements) => elements
    case ArrayAllocate(length) => [length]
    case ArrayLoad(array', index) => [array', index]
    case ArrayStore(array', index, value) => [array', index, value]
    case ArrayLength(array') => [array']
    case StringMeta(text) => [text]
    case StringSlice(text, start, end) => [text, start, end]
    case StringScalarAt(text, index) => [text, index]
    case StringNextScalar(text) => [text]
    case ObjectMeta(object') => [object']
    case IntegerWrite(value, destination, offset) => [value, destination, offset]
    case IntegerRead(source, offset) => [source, offset]
    case Unary(operand) => [operand]
    case Binary(left, right) => [left, right]
    case NullableEqual(left, right) => [left, right]
    case Convert(value) => [value]
    case Box(value) => [value]
    case Unbox(value) => [value]
    case IsNonNull(value) => [value]
    case NullAssert(value) => [value]
    case TypeTest(value) => [value]
    case CheckedCast(value) => [value]
    case Call(receiver, arguments, _, _) => Listed(receiver) + arguments
    case LoadCallResult(storage) => [storage]
    case _ => []
  }

  function StorageSymbolUse(instruction: Instruction): Option<SymbolId> {
    match instruction.data
    case LoadSymbol(symbol) => Some(symbol)
    case LoadStorage(path) => path.symbol
    case StoreStorage(path, _) => path.symbol
    case _ => None
  }

  function TerminatorUses(terminator: Terminator): seq<ValueId> {
    match terminator
    case Branch(condition, _, _) => [condition]
    case Switch(selector, _, _, _) => [selector]
    case Return(value) => Listed(value)
    case Raise(error) => [error]
    case _ => []
  }

  /** Cloth's code generator also sorts the list and drops repetitions; nothing below depends on either. */
  function Successors(terminator: Terminator): seq<BlockId> {
    match terminator
    case Jump(target) => [target]
    case Branch(_, thenBlock, elseBlock) => [thenBlock, elseBlock]
    case Switch(_, cases, defaultBlock, invalidBlock) => cases + [defaultBlock] + Listed(invalidBlock)
    case _ => []
  }

  /** Where a terminator goes, given whether its condition holds and which case its selector picks: beyond the cases
      the default, and beyond that the block for invalid tags. */
  function Chosen(terminator: Terminator, holds: bool, k: nat): Option<BlockId> {
    match terminator
    case Jump(target) => Some(target)
    case Branch(_, thenBlock, elseBlock) => Some(if holds then thenBlock else elseBlock)
    case Switch(_, cases, defaultBlock, invalidBlock) =>
      if k < |cases| then Some(cases[k]) else if k == |cases| then Some(defaultBlock) else invalidBlock
    case _ => None
  }

  /** The successors are exactly the blocks that control can go to. */
  lemma SuccessorsAreChosen(terminator: Terminator, b: BlockId)
    ensures b in Successors(terminator) <==> exists holds, k :: Chosen(terminator, holds, k) == Some(b)
  {
    match terminator
    case Jump(target) => assert Chosen(terminator, true, 0) == Some(target);
    case Branch(_, thenBlock, elseBlock) =>
      assert Chosen(terminator, true, 0) == Some(thenBlock) && Chosen(terminator, false, 0) == Some(elseBlock);
    case Switch(_, cases, defaultBlock, invalidBlock) =>
      assert Chosen(terminator, true, |cases|) == Some(defaultBlock);
      assert Chosen(terminator, true, |cases| + 1) == invalidBlock;
      if b in cases {
        var k :| 0 <= k < |cases| && cases[k] == b;
        assert Chosen(terminator, true, k) == Some(b);
      }
    case _ =>
  }

  function ErrorResult(instruction: Instruction): Option<ValueId> {
    if instruction.data.Call? then instruction.data.errorResult else None
  }

  function DeclaredOrStored(instruction: Instruction): Option<SymbolId> {
    match instruction.data
    case DeclareLocal(symbol, _) => Some(symbol)
    case StoreSymbol(symbol, _) => Some(symbol)
    case _ => None
  }

  function ValueRoots(values: seq<ValueId>): set<Root> {
    set v | v in values :: Value(v)
  }

  function SymbolRoot(symbol: Option<SymbolId>): set<Root> {
    match symbol
    case None => {}
    case Some(s) => {Symbol(s)}
  }

  /** The roots an instruction reads. A phi reads its operands on the incoming edge instead. */
  function Uses(instruction: Instruction): set<Root> {
    ValueRoots(InstructionUses(instruction)) + SymbolRoot(StorageSymbolUse(instruction))
  }

  /** The roots an instruction overwrites. */
  function Definitions(instruction: Instruction): set<Root> {
    ValueRoots(Listed(instruction.result) + Listed(ErrorResult(instruction)))
    + SymbolRoot(DeclaredOrStored(instruction))
  }

  predicate InRange(body: Body, block: BlockId) {
    block < |body.blocks|
  }

  predicate IsReachable(body: Body, block: BlockId) {
    InRange(body, block) && body.blocks[block].reachable
  }

  /** The number of phis that open a block. */
  function LeadingPhis(instructions: seq<Instruction>): (n: nat)
    ensures n <= |instructions|
    ensures forall k :: 0 <= k < n ==> instructions[k].data.Phi?
    ensures n < |instructions| ==> !instructions[n].data.Phi?
  {
    if instructions == [] || !instructions[0].data.Phi? then 0 else 1 + LeadingPhis(instructions[1..])
  }

  /** What the leading phis of `block` read when control arrives from `predecessor`. */
  function PhiUses(block: Block, predecessor: BlockId): set<Root> {
    set k, j | 0 <= k < LeadingPhis(block.instructions)
            && 0 <= j < |block.instructions[k].data.incoming|
            && block.instructions[k].data.incoming[j].predecessor == predecessor
            :: Value(block.instructions[k].data.incoming[j].value)
  }
}
