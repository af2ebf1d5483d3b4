/** The fall-through analysis of callable bodies, and its soundness against a big-step semantics. */
module ControlFlow {
  import opened Wrappers

  datatype Expression =
    | Literal(bottom: bool, isBoolean: bool, lexeme: string)
    | Grouped(bottom: bool, inner: Expression)
    | Other(bottom: bool, id: nat)

  datatype Block = Block(statements: seq<Statement>)

  /** A statement under its number in the body. */
  datatype Statement = Statement(id: nat, data: Data)

  datatype Data =
    | Invalid
    | Local(initializer: Option<Expression>)
    | Return(value: Option<Expression>)
    | Evaluate(expression: Expression)
    | If(condition: Expression, yes: Block, no: Option<Block>)
    | While(test: Expression, body: Block)
    | ForEach(iterable: Expression, body: Block)
    | For(start: Option<Statement>, guard: Option<Expression>, updates: seq<Expression>, body: Block)
    | Switch(selector: Expression, arms: seq<Block>, exhaustive: bool)
    | Break
    | Continue
    | Nested(block: Block)

  // ----- the analysis -----

  predicate NeverCompletes(e: Expression) {
    e.bottom
  }

  predicate IsTrue(e: Expression) {
    match e
    case Literal(_, isBoolean, lexeme) => isBoolean && lexeme == "true"
    case Grouped(_, inner) => IsTrue(inner)
    case Other(_, _) => false
  }

  /** What the analysis says of a statement or block, with the statements it counts as reachable and those it
      reports as unreachable, in order. */
  datatype Flow = Flow(canFall: bool, hasBreak: bool, reached: seq<nat>, dead: seq<nat>)

  const OPEN: Flow := Flow(true, false, [], [])
  const CLOSED: Flow := Flow(false, false, [], [])

  function BlockFlow(block: Block, reachable: bool): Flow
    decreases block, 0
  {
    StatementsFlow(block.statements, Flow(reachable, false, [], []))
  }

  /** The flow after the statements, from the flow before them. */
  function StatementsFlow(statements: seq<Statement>, before: Flow): Flow
    decreases statements, 0
  {
    if statements == [] then before
    else StatementsFlow(statements[1..], AfterStatement(statements[0], before))
  }

  function AfterStatement(s: Statement, before: Flow): Flow
    decreases s, 1
  {
    if !before.canFall then before.(dead := before.dead + [s.id])
    else
      var flow := StatementFlow(s);
      Flow(flow.canFall, before.hasBreak || flow.hasBreak,
           before.reached + [s.id] + flow.reached, before.dead + flow.dead)
  }

  function StatementFlow(s: Statement): Flow
    decreases s, 0
  {
    match s.data
    case Return(_) => CLOSED
    case Break => CLOSED.(hasBreak := true)
    case Continue => CLOSED
    case Local(initializer) => if initializer.Some? && NeverCompletes(initializer.value) then CLOSED else OPEN
    case Evaluate(expression) => if NeverCompletes(expression) then CLOSED else OPEN
    case If(condition, yes, no) =>
      if NeverCompletes(condition) then CLOSED
      else
        var thenFlow := BlockFlow(yes, true);
        var elseFlow := if no.Some? then BlockFlow(no.value, true) else OPEN;
        Flow(thenFlow.canFall || elseFlow.canFall, thenFlow.hasBreak || elseFlow.hasBreak,
             thenFlow.reached + elseFlow.reached, thenFlow.dead + elseFlow.dead)
    case While(test, body) =>
      if NeverCompletes(test) then CLOSED
      else
        var flow := BlockFlow(body, true);
        flow.(canFall := !IsTrue(test) || flow.hasBreak, hasBreak := false)
    case Switch(selector, arms, exhaustive) =>
      if NeverCompletes(selector) then CLOSED else ArmsFlow(arms, OPEN.(canFall := !exhaustive))
    case ForEach(iterable, body) =>
      if NeverCompletes(iterable) then CLOSED
      else BlockFlow(body, true).(canFall := true, hasBreak := false)
    case For(start, guard, _, body) =>
      var first := if start.Some? then StatementFlow(start.value) else OPEN;
      if !first.canFall then first
      else if guard.Some? && NeverCompletes(guard.value) then CLOSED.(reached := first.reached, dead := first.dead)
      else
        var flow := BlockFlow(body, true);
        Flow((guard.Some? && !IsTrue(guard.value)) || flow.hasBreak, false,
             first.reached + flow.reached, first.dead + flow.dead)
    case Nested(block) => BlockFlow(block, true)
    case Invalid => OPEN
  }

  function ArmsFlow(arms: seq<Block>, before: Flow): Flow
    decreases arms, 0
  {
    if arms == [] then before else ArmsFlow(arms[1..], AfterArm(arms[0], before))
  }

  function AfterArm(arm: Block, before: Flow): Flow
    decreases arm, 1
  {
    var flow := BlockFlow(arm, true);
    Flow(before.canFall || flow.canFall || flow.hasBreak, false, before.reached + flow.reached, before.dead + flow.dead)
  }

  // ----- the semantics -----

  /** A word and a new world, an error, or no result at all. */
  datatype Evaluation<W> = Value(word: nat, world: W) | Raises(world: W) | Hangs

  type Evaluator<!W> = (Expression, W) -> Evaluation<W>

  datatype Outcome = Normal | Broke | Continued | Returned | Threw | Unfinished

  /** How a run ended, the world it left, and the statements it executed. An unfinished run executed some too. */
  datatype Run<W> = Run(outcome: Outcome, world: W, executed: set<nat>)

  /** Evaluation follows the language: an expression of the bottom type has no value, a boolean literal has its own,
      and a grouped expression that of what it groups. */
  ghost predicate Respects<W(!new)>(eval: Evaluator<W>) {
    forall e, w {:trigger Evaluates(eval, e, w)} :: Evaluates(eval, e, w)
  }

  ghost predicate Evaluates<W>(eval: Evaluator<W>, e: Expression, w: W) {
    && (NeverCompletes(e) ==> !eval(e, w).Value?)
    && (!NeverCompletes(e) ==>
          match e
          case Literal(_, isBoolean, lexeme) =>
            && (isBoolean && lexeme == "true" ==> eval(e, w) == Value(1, w))
            && (isBoolean && lexeme == "false" ==> eval(e, w) == Value(0, w))
          case Grouped(_, inner) => eval(e, w) == eval(inner, w)
          case Other(_, _) => true)
  }

  /** What the analysis takes for a literal `true` is true whenever it has a value, through any nesting of groups. */
  lemma {:induction false} TrueHolds<W(!new)>(eval: Evaluator<W>, e: Expression, w: W)
    requires Respects(eval) && IsTrue(e) && eval(e, w).Value?
    ensures eval(e, w).word == 1
  {
    assert Evaluates(eval, e, w);
    if e.Grouped? {
      TrueHolds(eval, e.inner, w);
    }
  }

  /** All that soundness needs of the language. */
  lemma RespectsIsHonest<W(!new)>(eval: Evaluator<W>)
    requires Respects(eval)
    ensures forall e, w :: NeverCompletes(e) ==> !eval(e, w).Value?
    ensures forall e, w :: IsTrue(e) && eval(e, w).Value? ==> eval(e, w).word != 0
  {
    forall e, w | NeverCompletes(e) ensures !eval(e, w).Value? {
      assert Evaluates(eval, e, w);
    }
    forall e, w | IsTrue(e) && eval(e, w).Value? ensures eval(e, w).word != 0 {
      TrueHolds(eval, e, w);
    }
  }

  function Stop<W>(e: Evaluation<W>, w: W): Run<W>
    requires !e.Value?
  {
    if e.Raises? then Run(Threw, e.world, {}) else Run(Unfinished, w, {})
  }

  function Then<W>(first: Run<W>, second: Run<W>): Run<W> {
    second.(executed := first.executed + second.executed)
  }

  function ExecBlock<W>(eval: Evaluator<W>, statements: seq<Statement>, w: W, fuel: nat): Run<W>
    decreases fuel, statements, 0
  {
    if statements == [] then Run(Normal, w, {})
    else
      var first := Exec(eval, statements[0], w, fuel);
      var run := first.(executed := {statements[0].id} + first.executed);
      if run.outcome.Normal? then Then(run, ExecBlock(eval, statements[1..], run.world, fuel)) else run
  }

  function Exec<W>(eval: Evaluator<W>, s: Statement, w: W, fuel: nat): Run<W>
    decreases fuel, s, 0
  {
    match s.data
    case Invalid => Run(Normal, w, {})
    case Break => Run(Broke, w, {})
    case Continue => Run(Continued, w, {})
    case Nested(block) => ExecBlock(eval, block.statements, w, fuel)
    case Local(initializer) =>
      if initializer.None? then Run(Normal, w, {})
      else
        var e := eval(initializer.value, w);
        if e.Value? then Run(Normal, e.world, {}) else Stop(e, w)
    case Evaluate(expression) =>
      var e := eval(expression, w);
      if e.Value? then Run(Normal, e.world, {}) else Stop(e, w)
    case Return(value) =>
      if value.None? then Run(Returned, w, {})
      else
        var e := eval(value.value, w);
        if e.Value? then Run(Returned, e.world, {}) else Stop(e, w)
    case If(condition, yes, no) =>
      var e := eval(condition, w);
      if !e.Value? then Stop(e, w)
      else if e.word != 0 then ExecBlock(eval, yes.statements, e.world, fuel)
      else if no.Some? then ExecBlock(eval, no.value.statements, e.world, fuel)
      else Run(Normal, e.world, {})
    case While(test, body) => Loop(eval, Some(test), body, [], w, fuel)
    case ForEach(iterable, body) =>
      var e := eval(iterable, w);
      if e.Value? then Repeat(eval, e.word, body, e.world, fuel) else Stop(e, w)
    case For(start, guard, updates, body) =>
      var first := if start.Some? then Exec(eval, start.value, w, fuel) else Run(Normal, w, {});
      if first.outcome.Normal? then Then(first, Loop(eval, guard, body, updates, first.world, fuel)) else first
    case Switch(selector, arms, exhaustive) =>
      var e := eval(selector, w);
      if !e.Value? then Stop(e, w)
      else if e.word < |arms| then LeaveSwitch(ExecBlock(eval, arms[e.word].statements, e.world, fuel))
      else if exhaustive then Run(Unfinished, w, {})
      else Run(Normal, e.world, {})
  }

  /** A break in an arm ends the switch. */
  function LeaveSwitch<W>(run: Run<W>): Run<W> {
    if run.outcome.Broke? then run.(outcome := Normal) else run
  }

  /** The updates of a loop, in order. */
  function Update<W>(eval: Evaluator<W>, updates: seq<Expression>, w: W): Run<W> {
    if updates == [] then Run(Normal, w, {})
    else
      var e := eval(updates[0], w);
      if e.Value? then Update(eval, updates[1..], e.world) else Stop(e, w)
  }

  /** A loop that tests before each turn, without a test forever. */
  function Loop<W>(eval: Evaluator<W>, guard: Option<Expression>, body: Block, updates: seq<Expression>, w: W,
                   fuel: nat): Run<W>
    decreases fuel, body, 1
  {
    if fuel == 0 then Run(Unfinished, w, {})
    else
      var test := if guard.Some? then eval(guard.value, w) else Value(1, w);
      if !test.Value? then Stop(test, w)
      else if test.word == 0 then Run(Normal, test.world, {})
      else
        var turn := ExecBlock(eval, body.statements, test.world, fuel);
        match turn.outcome
        case Broke => turn.(outcome := Normal)
        case Returned => turn
        case Threw => turn
        case Unfinished => turn
        case _ =>
          var updated := Then(turn, Update(eval, updates, turn.world));
          if updated.outcome.Normal? then Then(updated, Loop(eval, guard, body, updates, updated.world, fuel - 1))
            else updated
  }

  /** A loop over the elements of an array or the scalars of a string. */
  function Repeat<W>(eval: Evaluator<W>, turns: nat, body: Block, w: W, fuel: nat): Run<W>
    decreases fuel, body, 1, turns
  {
    if turns == 0 then Run(Normal, w, {})
    else
      var turn := ExecBlock(eval, body.statements, w, fuel);
      match turn.outcome
      case Broke => turn.(outcome := Normal)
      case Returned => turn
      case Threw => turn
      case Unfinished => turn
      case _ => Then(turn, Repeat(eval, turns - 1, body, turn.world, fuel))
  }

  // ----- soundness -----

  /** The initializer of a loop is not analysed as one that may break out and may also fall through. The bodies
      that pass verification have local or expression statements there, which never break. */
  predicate Settled(s: Statement) {
    match s.data
    case If(_, yes, no) => SettledBlock(yes.statements) && (no.Some? ==> SettledBlock(no.value.statements))
    case While(_, body) => SettledBlock(body.statements)
    case ForEach(_, body) => SettledBlock(body.statements)
    case For(start, _, _, body) =>
      && (start.Some? ==>
            Settled(start.value)
            && !(StatementFlow(start.value).canFall && StatementFlow(start.value).hasBreak))
      && SettledBlock(body.statements)
    case Switch(_, arms, _) => forall i :: 0 <= i < |arms| ==> SettledBlock(arms[i].statements)
    case Nested(block) => SettledBlock(block.statements)
    case _ => true
  }

  predicate SettledBlock(statements: seq<Statement>) {
    forall i :: 0 <= i < |statements| ==> Settled(statements[i])
  }

  /** The run is one the flow allows: it ends normally or by a break only where the flow says so, and executes
      only statements counted as reachable. */
  ghost predicate Allows<W>(flow: Flow, run: Run<W>) {
    && (run.outcome.Normal? ==> flow.canFall)
    && (run.outcome.Broke? ==> flow.hasBreak)
    && (forall id :: id in run.executed ==> id in flow.reached)
  }

  /** Later statements add to what was found before them. */
  predicate Extends(flow: Flow, before: Flow) {
    (before.hasBreak ==> flow.hasBreak) && forall id :: id in before.reached ==> id in flow.reached
  }

  lemma {:induction false} StatementsExtend(statements: seq<Statement>, before: Flow)
    ensures Extends(StatementsFlow(statements, before), before)
  {
    if statements != [] {
      StatementsExtend(statements[1..], AfterStatement(statements[0], before));
    }
  }

  lemma {:induction false} ArmsExtend(arms: seq<Block>, before: Flow)
    ensures before.canFall ==> ArmsFlow(arms, before).canFall
    ensures forall id :: id in before.reached ==> id in ArmsFlow(arms, before).reached
  {
    if arms != [] {
      ArmsExtend(arms[1..], AfterArm(arms[0], before));
    }
  }

  lemma {:induction false} ArmIsIncluded(arms: seq<Block>, before: Flow, i: nat)
    requires i < |arms|
    ensures var flow, all := BlockFlow(arms[i], true), ArmsFlow(arms, before);
            (flow.canFall || flow.hasBreak ==> all.canFall) && forall id :: id in flow.reached ==> id in all.reached
  {
    if i == 0 {
      ArmsExtend(arms[1..], AfterArm(arms[0], before));
    } else {
      ArmIsIncluded(arms[1..], AfterArm(arms[0], before), i - 1);
    }
  }

  lemma {:induction false} StatementsSound<W(!new)>(eval: Evaluator<W>, statements: seq<Statement>, before: Flow,
                                                    w: W, fuel: nat)
    requires Respects(eval) && SettledBlock(statements) && before.canFall
    ensures Allows(StatementsFlow(statements, before), ExecBlock(eval, statements, w, fuel))
    decreases fuel, statements, 0
  {
    RespectsIsHonest(eval);
    if statements != [] {
      var first, rest := statements[0], statements[1..];
      StatementSound(eval, first, w, fuel);
      var run := Exec(eval, first, w, fuel);
      var after := AfterStatement(first, before);
      StatementsExtend(rest, after);
      if run.outcome.Normal? {
        StatementsSound(eval, rest, after, run.world, fuel);
      }
    }
  }

  lemma BlockSound<W(!new)>(eval: Evaluator<W>, block: Block, w: W, fuel: nat)
    requires Respects(eval) && SettledBlock(block.statements)
    ensures Allows(BlockFlow(block, true), ExecBlock(eval, block.statements, w, fuel))
    decreases fuel, block, 0
  {
    RespectsIsHonest(eval);
    StatementsSound(eval, block.statements, OPEN, w, fuel);
  }

  lemma {:induction false} UpdatesExecuteNothing<W(!new)>(eval: Evaluator<W>, updates: seq<Expression>, w: W)
    ensures Update(eval, updates, w).executed == {} && !Update(eval, updates, w).outcome.Broke?
  {
    if updates != [] && eval(updates[0], w).Value? {
      UpdatesExecuteNothing(eval, updates[1..], eval(updates[0], w).world);
    }
  }

  /** A loop ends normally through its test or through a break. */
  lemma {:induction false} LoopSound<W(!new)>(eval: Evaluator<W>, guard: Option<Expression>, body: Block,
                                              updates: seq<Expression>, w: W, fuel: nat)
    requires Respects(eval) && SettledBlock(body.statements)
    ensures var flow, run := BlockFlow(body, true), Loop(eval, guard, body, updates, w, fuel);
            && (run.outcome.Normal? ==> (guard.Some? && !IsTrue(guard.value)) || flow.hasBreak)
            && !run.outcome.Broke? && (forall id :: id in run.executed ==> id in flow.reached)
    ensures guard.Some? && NeverCompletes(guard.value) ==>
              var run := Loop(eval, guard, body, updates, w, fuel); !run.outcome.Normal? && run.executed == {}
    decreases fuel, body, 1
  {
    RespectsIsHonest(eval);
    if fuel > 0 {
      var test := if guard.Some? then eval(guard.value, w) else Value(1, w);
      if test.Value? && test.word != 0 {
        BlockSound(eval, body, test.world, fuel);
        var turn := ExecBlock(eval, body.statements, test.world, fuel);
        UpdatesExecuteNothing(eval, updates, turn.world);
        var updated := Then(turn, Update(eval, updates, turn.world));
        if (turn.outcome.Normal? || turn.outcome.Continued?) && updated.outcome.Normal? {
          LoopSound(eval, guard, body, updates, updated.world, fuel - 1);
        }
      }
    }
  }

  lemma {:induction false} RepeatSound<W(!new)>(eval: Evaluator<W>, turns: nat, body: Block, w: W, fuel: nat)
    requires Respects(eval) && SettledBlock(body.statements)
    ensures var run := Repeat(eval, turns, body, w, fuel);
            !run.outcome.Broke? && forall id :: id in run.executed ==> id in BlockFlow(body, true).reached
    decreases fuel, body, 1, turns
  {
    RespectsIsHonest(eval);
    if turns > 0 {
      BlockSound(eval, body, w, fuel);
      var turn := ExecBlock(eval, body.statements, w, fuel);
      if turn.outcome.Normal? || turn.outcome.Continued? {
        RepeatSound(eval, turns - 1, body, turn.world, fuel);
      }
    }
  }

  /** Every run of a statement, finished or not, is one the analysis allows. */
  lemma {:induction false} StatementSound<W(!new)>(eval: Evaluator<W>, s: Statement, w: W, fuel: nat)
    requires Respects(eval) && Settled(s)
    ensures Allows(StatementFlow(s), Exec(eval, s, w, fuel))
    decreases fuel, s, 0
  {
    RespectsIsHonest(eval);
    match s.data
    case If(condition, yes, no) =>
      var e := eval(condition, w);
      if e.Value? {
        BlockSound(eval, yes, e.world, fuel);
        if no.Some? {
          BlockSound(eval, no.value, e.world, fuel);
        }
      }
    case While(test, body) => LoopSound(eval, Some(test), body, [], w, fuel);
    case ForEach(iterable, body) =>
      var e := eval(iterable, w);
      if e.Value? {
        RepeatSound(eval, e.word, body, e.world, fuel);
      }
    case For(start, guard, updates, body) =>
      var first := if start.Some? then Exec(eval, start.value, w, fuel) else Run(Normal, w, {});
      if start.Some? {
        StatementSound(eval, start.value, w, fuel);
      }
      LoopSound(eval, guard, body, updates, first.world, fuel);
    case Switch(selector, arms, exhaustive) =>
      var e := eval(selector, w);
      ArmsExtend(arms, OPEN.(canFall := !exhaustive));
      if e.Value? && e.word < |arms| {
        BlockSound(eval, arms[e.word], e.world, fuel);
        ArmIsIncluded(arms, OPEN.(canFall := !exhaustive), e.word);
      }
    case Nested(block) => BlockSound(eval, block, w, fuel);
    case _ =>
  }

  // ----- unreachable statements -----

  /** How often a number occurs among the statements of the blocks inside a statement. */
  function Occurs(s: Statement, id: nat): nat
    decreases s, 0
  {
    match s.data
    case If(_, yes, no) => BlockOccurs(yes.statements, id) + if no.Some? then BlockOccurs(no.value.statements, id)
      else 0
    case While(_, body) => BlockOccurs(body.statements, id)
    case ForEach(_, body) => BlockOccurs(body.statements, id)
    case For(start, _, _, body) => (if start.Some? then Occurs(start.value, id) else 0)
        + BlockOccurs(body.statements, id)
    case Switch(_, arms, _) => ArmsOccur(arms, id)
    case Nested(block) => BlockOccurs(block.statements, id)
    case _ => 0
  }

  function BlockOccurs(statements: seq<Statement>, id: nat): nat
    decreases statements, 0
  {
    if statements == [] then 0
    else (if statements[0].id == id then 1 else 0) + Occurs(statements[0], id) + BlockOccurs(statements[1..], id)
  }

  function ArmsOccur(arms: seq<Block>, id: nat): nat
    decreases arms, 0
  {
    if arms == [] then 0 else BlockOccurs(arms[0].statements, id) + ArmsOccur(arms[1..], id)
  }

  function Times(ids: seq<nat>, id: nat): nat {
    multiset(ids)[id]
  }

  lemma TimesAdd(a: seq<nat>, b: seq<nat>, id: nat)
    ensures Times(a + b, id) == Times(a, id) + Times(b, id)
  {
  }

  function Counted(flow: Flow, id: nat): nat {
    Times(flow.reached, id) + Times(flow.dead, id)
  }

  lemma CountsAdd(a: Flow, b: Flow, both: Flow, id: nat)
    requires both.reached == a.reached + b.reached && both.dead == a.dead + b.dead
    ensures Counted(both, id) == Counted(a, id) + Counted(b, id)
  {
    TimesAdd(a.reached, b.reached, id);
    TimesAdd(a.dead, b.dead, id);
  }

  lemma BlockCounts(block: Block, id: nat)
    ensures Counted(BlockFlow(block, true), id) <= BlockOccurs(block.statements, id)
    decreases block, 0
  {
    StatementsCount(block.statements, OPEN, id);
  }

  /** The analysis counts no occurrence of a statement twice. */
  lemma {:induction false} StatementCounts(s: Statement, id: nat)
    ensures Counted(StatementFlow(s), id) <= Occurs(s, id)
    decreases s, 1
  {
    match s.data
    case If(_, _, _) => IfCounts(s, id);
    case While(_, body) => BlockCounts(body, id);
    case ForEach(_, body) => BlockCounts(body, id);
    case For(_, _, _, _) => ForCounts(s, id);
    case Switch(_, arms, exhaustive) => ArmsCount(arms, OPEN.(canFall := !exhaustive), id);
    case Nested(block) => BlockCounts(block, id);
    case _ =>
  }

  lemma {:induction false} IfCounts(s: Statement, id: nat)
    requires s.data.If?
    ensures Counted(StatementFlow(s), id) <= Occurs(s, id)
    decreases s, 0
  {
    var If(condition, yes, no) := s.data;
    BlockCounts(yes, id);
    if no.Some? {
      BlockCounts(no.value, id);
    }
    if !NeverCompletes(condition) {
      CountsAdd(BlockFlow(yes, true), if no.Some? then BlockFlow(no.value, true) else OPEN, StatementFlow(s), id);
    }
  }

  lemma {:induction false} ForCounts(s: Statement, id: nat)
    requires s.data.For?
    ensures Counted(StatementFlow(s), id) <= Occurs(s, id)
    decreases s, 0
  {
    var For(start, guard, _, body) := s.data;
    BlockCounts(body, id);
    var first := if start.Some? then StatementFlow(start.value) else OPEN;
    if start.Some? {
      StatementCounts(start.value, id);
    }
    if first.canFall && !(guard.Some? && NeverCompletes(guard.value)) {
      CountsAdd(first, BlockFlow(body, true), StatementFlow(s), id);
    }
  }

  lemma {:induction false} StatementsCount(statements: seq<Statement>, before: Flow, id: nat)
    ensures Counted(StatementsFlow(statements, before), id) <= Counted(before, id) + BlockOccurs(statements, id)
    decreases statements, 0
  {
    if statements != [] {
      var first := statements[0];
      StatementCounts(first, id);
      AfterCounts(first, before, id);
      StatementsCount(statements[1..], AfterStatement(first, before), id);
    }
  }

  lemma AfterCounts(s: Statement, before: Flow, id: nat)
    ensures Counted(AfterStatement(s, before), id)
         <= Counted(before, id) + (if s.id == id then 1 else 0) + Counted(StatementFlow(s), id)
  {
    var flow := StatementFlow(s);
    TimesAdd(before.dead, [s.id], id);
    TimesAdd(before.reached, [s.id], id);
    TimesAdd(before.reached + [s.id], flow.reached, id);
    TimesAdd(before.dead, flow.dead, id);
  }

  lemma {:induction false} ArmsCount(arms: seq<Block>, before: Flow, id: nat)
    ensures Counted(ArmsFlow(arms, before), id) <= Counted(before, id) + ArmsOccur(arms, id)
    decreases arms, 0
  {
    if arms != [] {
      BlockCounts(arms[0], id);
      CountsAdd(before, BlockFlow(arms[0], true), AfterArm(arms[0], before), id);
      ArmsCount(arms[1..], AfterArm(arms[0], before), id);
    }
  }

  /** A statement whose number is its own is never executed when it is reported as unreachable. */
  lemma UnreachableIsNeverExecuted<W(!new)>(eval: Evaluator<W>, body: Block, w: W, fuel: nat, id: nat)
    requires Respects(eval) && SettledBlock(body.statements) && BlockOccurs(body.statements, id) == 1
    requires id in BlockFlow(body, true).dead
    ensures id !in ExecBlock(eval, body.statements, w, fuel).executed
  {
    BlockSound(eval, body, w, fuel);
    BlockCounts(body, id);
    assert id in multiset(BlockFlow(body, true).dead);
    assert id in BlockFlow(body, true).reached ==> id in multiset(BlockFlow(body, true).reached);
  }

  // ----- precision -----

  /** Types as semantic analysis leaves them: no literal is of the bottom type, and a grouped expression has the type of
      what it groups. */
  predicate Typed(e: Expression) {
    match e
    case Literal(bottom, _, _) => !bottom
    case Grouped(bottom, inner) => bottom == NeverCompletes(inner) && Typed(inner)
    case Other(_, _) => true
  }

  /** Not a boolean literal, however grouped. */
  predicate Free(e: Expression) {
    match e
    case Literal(_, isBoolean, lexeme) => !(isBoolean && lexeme in {"true", "false"})
    case Grouped(_, inner) => Free(inner)
    case Other(_, _) => true
  }

  /** Expressions are typed, and no branch, switch or iteration is on a boolean literal, which the analysis looks for in
      loop tests only. */
  predicate Open(s: Statement) {
    match s.data
    case Local(initializer) => initializer.Some? ==> Typed(initializer.value)
    case Evaluate(expression) => Typed(expression)
    case If(condition, yes, no) =>
      && Typed(condition) && Free(condition) && OpenBlock(yes.statements)
      && (no.Some? ==> OpenBlock(no.value.statements))
    case While(test, body) => Typed(test) && OpenBlock(body.statements)
    case ForEach(iterable, body) => Typed(iterable) && Free(iterable) && OpenBlock(body.statements)
    case For(start, guard, _, body) =>
      && (start.Some? ==> Open(start.value)) && (guard.Some? ==> Typed(guard.value)) && OpenBlock(body.statements)
    case Switch(selector, arms, _) =>
      Typed(selector) && Free(selector) && forall i :: 0 <= i < |arms| ==> OpenBlock(arms[i].statements)
    case Nested(block) => OpenBlock(block.statements)
    case _ => true
  }

  predicate OpenBlock(statements: seq<Statement>) {
    forall i :: 0 <= i < |statements| ==> Open(statements[i])
  }

  /** Evaluation by script: a boolean literal is what it is, a group what it groups, and every other evaluation takes
      the next word of the world. */
  function Script(e: Expression, w: seq<nat>): Evaluation<seq<nat>> {
    if NeverCompletes(e) then Hangs
    else
      match e
      case Literal(_, true, "true") => Value(1, w)
      case Literal(_, true, "false") => Value(0, w)
      case Grouped(_, inner) => Script(inner, w)
      case _ => if w == [] then Hangs else Value(w[0], w[1..])
  }

  function Scripted(): Evaluator<seq<nat>> {
    Script
  }

  lemma ScriptedRespects()
    ensures Respects(Scripted())
  {
    forall e: Expression, w: seq<nat> ensures Evaluates(Scripted(), e, w) {
    }
  }

  /** A free expression takes any word. */
  lemma {:induction false} ScriptWord(e: Expression, k: nat, rest: seq<nat>)
    requires Typed(e) && Free(e) && !NeverCompletes(e)
    ensures Script(e, [k] + rest) == Value(k, rest)
  {
    assert ([k] + rest)[0] == k && ([k] + rest)[1..] == rest;
    if e.Grouped? {
      ScriptWord(e.inner, k, rest);
    }
  }

  /** An expression that the analysis does not take for `true` can be zero. */
  lemma {:induction false} ScriptZero(e: Expression, rest: seq<nat>) returns (script: seq<nat>)
    requires Typed(e) && !IsTrue(e) && !NeverCompletes(e)
    ensures Script(e, script + rest) == Value(0, rest)
  {
    if e.Grouped? {
      script := ScriptZero(e.inner, rest);
    } else if Free(e) {
      script := [0];
      ScriptWord(e, 0, rest);
    } else {
      script := [];
      assert [] + rest == rest;
    }
  }

  /** One that completes can have a value, not zero where that is `true`. */
  lemma {:induction false} ScriptValue(e: Expression, rest: seq<nat>) returns (script: seq<nat>)
    requires Typed(e) && !NeverCompletes(e)
    ensures Script(e, script + rest).Value? && Script(e, script + rest).world == rest
    ensures IsTrue(e) ==> Script(e, script + rest).word == 1
  {
    if e.Grouped? {
      script := ScriptValue(e.inner, rest);
    } else if Free(e) {
      script := [0];
      ScriptWord(e, 0, rest);
    } else {
      script := [];
      assert [] + rest == rest;
    }
  }

  /** The test for a literal `true` is exact: it singles out the expressions that complete and are never zero, whatever
      follows the language evaluates them. */
  lemma TrueIsExact(e: Expression)
    requires Typed(e) && !NeverCompletes(e)
    ensures IsTrue(e) <==>
              forall eval: Evaluator<seq<nat>>, w :: Respects(eval) && eval(e, w).Value? ==> eval(e, w).word != 0
  {
    if IsTrue(e) {
      forall eval: Evaluator<seq<nat>>, w | Respects(eval) && eval(e, w).Value? ensures eval(e, w).word != 0 {
        TrueHolds(eval, e, w);
      }
    } else {
      ScriptedRespects();
      var script := ScriptZero(e, []);
      assert Scripted()(e, script + []) == Value(0, []);
    }
  }

  ghost predicate Ends(run: Run<seq<nat>>, breaks: bool, rest: seq<nat>) {
    run.outcome == (if breaks then Broke else Normal) && run.world == rest
  }

  predicate Claims(flow: Flow, breaks: bool) {
    if breaks then flow.hasBreak else flow.canFall
  }

  lemma {:induction false} ClosedStays(statements: seq<Statement>, before: Flow)
    requires !before.canFall
    ensures !StatementsFlow(statements, before).canFall
    ensures StatementsFlow(statements, before).hasBreak == before.hasBreak
  {
    if statements != [] {
      ClosedStays(statements[1..], AfterStatement(statements[0], before));
    }
  }

  /** A block that the analysis lets end some way can be scripted to end that way. */
  lemma {:induction false} ScriptStatements(statements: seq<Statement>, before: Flow, breaks: bool, rest: seq<nat>)
    returns (script: seq<nat>)
    requires OpenBlock(statements) && before.canFall && Claims(StatementsFlow(statements, before), breaks)
    requires breaks ==> !before.hasBreak
    ensures Ends(ExecBlock(Scripted(), statements, script + rest, 1), breaks, rest)
    decreases statements, 0
  {
    if statements == [] {
      script := [];
      assert [] + rest == rest;
      return;
    }
    var first, more := statements[0], statements[1..];
    var after := AfterStatement(first, before);
    if breaks && StatementFlow(first).hasBreak {
      script := ScriptStatement(first, true, rest);
      return;
    }
    if !after.canFall {
      ClosedStays(more, after);
    } else {
      var later := ScriptStatements(more, after, breaks, rest);
      var now := ScriptStatement(first, false, later + rest);
      script := now + later;
      assert script + rest == now + (later + rest);
    }
  }

  lemma ScriptBlock(block: Block, breaks: bool, rest: seq<nat>) returns (script: seq<nat>)
    requires OpenBlock(block.statements) && Claims(BlockFlow(block, true), breaks)
    ensures Ends(ExecBlock(Scripted(), block.statements, script + rest, 1), breaks, rest)
    decreases block, 0
  {
    script := ScriptStatements(block.statements, OPEN, breaks, rest);
  }

  /** The arm, if any, that lets a switch fall through. */
  lemma {:induction false} FallingArm(arms: seq<Block>, before: Flow) returns (i: nat)
    requires ArmsFlow(arms, before).canFall && !before.canFall
    ensures i < |arms| && (BlockFlow(arms[i], true).canFall || BlockFlow(arms[i], true).hasBreak)
  {
    if BlockFlow(arms[0], true).canFall || BlockFlow(arms[0], true).hasBreak {
      i := 0;
    } else {
      var k := FallingArm(arms[1..], AfterArm(arms[0], before));
      i := k + 1;
    }
  }

  /** A loop that has a test to fail, or a break in its body, can be scripted to end. */
  lemma ScriptLoop(guard: Option<Expression>, body: Block, updates: seq<Expression>, rest: seq<nat>)
    returns (script: seq<nat>)
    requires OpenBlock(body.statements) && (guard.Some? ==> Typed(guard.value) && !NeverCompletes(guard.value))
    requires (guard.Some? && !IsTrue(guard.value)) || BlockFlow(body, true).hasBreak
    ensures Ends(Loop(Scripted(), guard, body, updates, script + rest, 1), false, rest)
    decreases body, 1
  {
    if guard.Some? && !IsTrue(guard.value) {
      script := ScriptZero(guard.value, rest);
    } else {
      var inside := ScriptBlock(body, true, rest);
      if guard.Some? {
        var test := ScriptValue(guard.value, inside + rest);
        script := test + inside;
        assert script + rest == test + (inside + rest);
      } else {
        script := inside;
      }
    }
  }

  lemma {:induction false} ScriptStatement(s: Statement, breaks: bool, rest: seq<nat>) returns (script: seq<nat>)
    requires Open(s) && Claims(StatementFlow(s), breaks)
    ensures Ends(Exec(Scripted(), s, script + rest, 1), breaks, rest)
    decreases s, 0
  {
    assert [] + rest == rest;
    match s.data
    case Invalid => script := [];
    case Break => script := [];
    case Local(initializer) =>
      script := [];
      if initializer.Some? {
        script := ScriptValue(initializer.value, rest);
      }
    case Evaluate(expression) => script := ScriptValue(expression, rest);
    case If(_, yes, no) => script := ScriptBranch(s, breaks, rest);
    case While(test, body) => script := ScriptLoop(Some(test), body, [], rest);
    case ForEach(iterable, _) =>
      script := [0];
      ScriptWord(iterable, 0, rest);
    case Switch(_, _, _) =>
      if breaks {
        ArmsNeverBreak(s.data.arms, OPEN.(canFall := !s.data.exhaustive));
      }
      script := ScriptSwitch(s, rest);
    case Nested(block) => script := ScriptBlock(block, breaks, rest);
    case For(start, guard, updates, body) =>
      var first := if start.Some? then StatementFlow(start.value) else OPEN;
      if !first.canFall {
        script := ScriptStatement(start.value, breaks, rest);
      } else {
        var turns := ScriptLoop(guard, body, updates, rest);
        if start.Some? {
          var begin := ScriptStatement(start.value, false, turns + rest);
          script := begin + turns;
          assert script + rest == begin + (turns + rest);
        } else {
          script := turns;
        }
      }
  }

  lemma ScriptBranch(s: Statement, breaks: bool, rest: seq<nat>) returns (script: seq<nat>)
    requires s.data.If? && Open(s) && Claims(StatementFlow(s), breaks)
    ensures Ends(Exec(Scripted(), s, script + rest, 1), breaks, rest)
    decreases s.data, 1
  {
    var no := s.data.no;
    var inside, word := [], 0;
    if Claims(BlockFlow(s.data.yes, true), breaks) {
      inside := ScriptBlock(s.data.yes, breaks, rest);
      word := 1;
    } else if no.Some? {
      inside := ScriptBlock(no.value, breaks, rest);
    }
    script := [word] + inside;
    ScriptWord(s.data.condition, word, inside + rest);
    assert script + rest == [word] + (inside + rest);
    assert [] + rest == rest;
  }

  lemma ScriptSwitch(s: Statement, rest: seq<nat>) returns (script: seq<nat>)
    requires s.data.Switch? && Open(s) && StatementFlow(s).canFall
    ensures Ends(Exec(Scripted(), s, script + rest, 1), false, rest)
    decreases s.data, 1
  {
    var arms := s.data.arms;
    if !s.data.exhaustive {
      script := [|arms|];
      ScriptWord(s.data.selector, |arms|, rest);
    } else {
      var i := FallingArm(arms, OPEN.(canFall := false));
      var inside := ScriptBlock(arms[i], !BlockFlow(arms[i], true).canFall, rest);
      script := [i] + inside;
      ScriptWord(s.data.selector, i, inside + rest);
      assert script + rest == [i] + (inside + rest);
    }
  }

  /** Some evaluation of the expressions ends the statement the given way. */
  ghost predicate CanEnd(s: Statement, breaks: bool) {
    exists eval: Evaluator<seq<nat>>, w, fuel: nat ::
      Respects(eval) && Exec(eval, s, w, fuel).outcome == if breaks then Broke else Normal
  }

  /** For typed statements that branch on no boolean literal, the analysis says fall-through or break exactly when the
      statement can end that way. */
  lemma AnalysisIsExact(s: Statement, breaks: bool)
    requires Settled(s) && Open(s)
    ensures Claims(StatementFlow(s), breaks) <==> CanEnd(s, breaks)
  {
    if Claims(StatementFlow(s), breaks) {
      ScriptedRespects();
      var script := ScriptStatement(s, breaks, []);
      assert Exec(Scripted(), s, script + [], 1).outcome == if breaks then Broke else Normal;
    }
    if CanEnd(s, breaks) {
      var eval: Evaluator<seq<nat>>, w, fuel: nat :|
        Respects(eval) && Exec(eval, s, w, fuel).outcome == if breaks then Broke else Normal;
      StatementSound(eval, s, w, fuel);
    }
  }

  // ----- branches on literals -----

  predicate IsFalse(e: Expression) {
    match e
    case Literal(_, isBoolean, lexeme) => isBoolean && lexeme == "false"
    case Grouped(_, inner) => IsFalse(inner)
    case Other(_, _) => false
  }

  lemma {:induction false} FreeIsNoLiteral(e: Expression)
    ensures Free(e) <==> !IsTrue(e) && !IsFalse(e)
  {
    if e.Grouped? {
      FreeIsNoLiteral(e.inner);
    }
  }

  lemma {:induction false} LiteralValue<W(!new)>(eval: Evaluator<W>, e: Expression, w: W)
    requires Respects(eval) && Typed(e) && (IsTrue(e) || IsFalse(e))
    ensures eval(e, w) == Value(if IsTrue(e) then 1 else 0, w) && !NeverCompletes(e)
  {
    assert Evaluates(eval, e, w);
    if e.Grouped? {
      LiteralValue(eval, e.inner, w);
    }
  }

  /** Typed as semantic analysis leaves it: a body whose switches and iterations are on no boolean literal. */
  predicate Proper(s: Statement) {
    match s.data
    case Local(initializer) => initializer.Some? ==> Typed(initializer.value)
    case Evaluate(expression) => Typed(expression)
    case If(condition, yes, no) =>
      Typed(condition) && ProperBlock(yes.statements) && (no.Some? ==> ProperBlock(no.value.statements))
    case While(test, body) => Typed(test) && ProperBlock(body.statements)
    case ForEach(iterable, body) => Typed(iterable) && Free(iterable) && ProperBlock(body.statements)
    case For(start, guard, _, body) =>
      && (start.Some? ==> Proper(start.value)) && (guard.Some? ==> Typed(guard.value)) && ProperBlock(body.statements)
    case Switch(selector, arms, _) =>
      Typed(selector) && Free(selector) && forall i :: 0 <= i < |arms| ==> ProperBlock(arms[i].statements)
    case Nested(block) => ProperBlock(block.statements)
    case _ => true
  }

  predicate ProperBlock(statements: seq<Statement>) {
    forall i :: 0 <= i < |statements| ==> Proper(statements[i])
  }

  /** The statement with every branch on a boolean literal replaced by the side it takes. */
  function Pruned(s: Statement): Statement
    decreases s, 0
  {
    match s.data
    case If(condition, yes, no) =>
      var other := if no.Some? then PrunedBlock(no.value) else Block([]);
      if IsTrue(condition) then s.(data := Nested(PrunedBlock(yes)))
      else if IsFalse(condition) then s.(data := Nested(other))
      else s.(data := If(condition, PrunedBlock(yes), if no.Some? then Some(other) else None))
    case While(test, body) => s.(data := While(test, PrunedBlock(body)))
    case ForEach(iterable, body) => s.(data := ForEach(iterable, PrunedBlock(body)))
    case For(start, guard, updates, body) =>
      s.(data := For(if start.Some? then Some(Pruned(start.value)) else None, guard, updates, PrunedBlock(body)))
    case Switch(selector, arms, exhaustive) => s.(data := Switch(selector, PrunedArms(arms), exhaustive))
    case Nested(block) => s.(data := Nested(PrunedBlock(block)))
    case _ => s
  }

  function PrunedBlock(block: Block): Block
    decreases block, 0
  {
    Block(PrunedStatements(block.statements))
  }

  function PrunedStatements(statements: seq<Statement>): (r: seq<Statement>)
    ensures |r| == |statements|
    decreases statements, 0
  {
    if statements == [] then [] else [Pruned(statements[0])] + PrunedStatements(statements[1..])
  }

  function PrunedArms(arms: seq<Block>): (r: seq<Block>)
    ensures |r| == |arms|
    decreases arms, 0
  {
    if arms == [] then [] else [PrunedBlock(arms[0])] + PrunedArms(arms[1..])
  }

  lemma {:induction false} PrunedArm(arms: seq<Block>, i: nat)
    requires i < |arms|
    ensures PrunedArms(arms)[i] == PrunedBlock(arms[i])
  {
    if i > 0 {
      PrunedArm(arms[1..], i - 1);
    }
  }

  lemma {:induction false} PrunedAt(statements: seq<Statement>, i: nat)
    requires i < |statements|
    ensures PrunedStatements(statements)[i] == Pruned(statements[i])
  {
    if i > 0 {
      PrunedAt(statements[1..], i - 1);
    }
  }

  lemma {:induction false} PrunedIsOpen(s: Statement)
    requires Proper(s)
    ensures Open(Pruned(s))
    decreases s, 0
  {
    match s.data
    case If(condition, yes, no) =>
      FreeIsNoLiteral(condition);
      PrunedBlockIsOpen(yes.statements);
      if no.Some? {
        PrunedBlockIsOpen(no.value.statements);
      }
    case While(_, body) => PrunedBlockIsOpen(body.statements);
    case ForEach(_, body) => PrunedBlockIsOpen(body.statements);
    case For(start, _, _, body) =>
      if start.Some? {
        PrunedIsOpen(start.value);
      }
      PrunedBlockIsOpen(body.statements);
    case Switch(_, arms, _) =>
      forall i | 0 <= i < |arms| ensures OpenBlock(PrunedArms(arms)[i].statements) {
        PrunedArm(arms, i);
        PrunedBlockIsOpen(arms[i].statements);
      }
    case Nested(block) => PrunedBlockIsOpen(block.statements);
    case _ =>
  }

  lemma {:induction false} PrunedBlockIsOpen(statements: seq<Statement>)
    requires ProperBlock(statements)
    ensures OpenBlock(PrunedStatements(statements))
    decreases statements, 1
  {
    forall i | 0 <= i < |statements| ensures Open(PrunedStatements(statements)[i]) {
      PrunedAt(statements, i);
      PrunedIsOpen(statements[i]);
    }
  }

  lemma {:induction false} PrunedIsVerified(s: Statement)
    requires Verified(s)
    ensures Verified(Pruned(s))
    decreases s, 0
  {
    match s.data
    case If(condition, yes, no) =>
      PrunedBlockIsVerified(yes.statements);
      if no.Some? {
        PrunedBlockIsVerified(no.value.statements);
      }
    case While(_, body) => PrunedBlockIsVerified(body.statements);
    case ForEach(_, body) => PrunedBlockIsVerified(body.statements);
    case For(_, _, _, body) => PrunedBlockIsVerified(body.statements);
    case Switch(_, arms, _) =>
      forall i | 0 <= i < |arms| ensures VerifiedBlock(PrunedArms(arms)[i].statements) {
        PrunedArm(arms, i);
        PrunedBlockIsVerified(arms[i].statements);
      }
    case Nested(block) => PrunedBlockIsVerified(block.statements);
    case _ =>
  }

  lemma {:induction false} PrunedBlockIsVerified(statements: seq<Statement>)
    requires VerifiedBlock(statements)
    ensures VerifiedBlock(PrunedStatements(statements))
    decreases statements, 1
  {
    forall i | 0 <= i < |statements| ensures Verified(PrunedStatements(statements)[i]) {
      PrunedAt(statements, i);
      PrunedIsVerified(statements[i]);
    }
  }

  /** Taking literal branches beforehand changes no run. */
  lemma {:induction false} PrunedRuns<W(!new)>(eval: Evaluator<W>, s: Statement, w: W, fuel: nat)
    requires Respects(eval) && Proper(s)
    ensures Exec(eval, Pruned(s), w, fuel) == Exec(eval, s, w, fuel)
    decreases fuel, s, 0
  {
    match s.data
    case If(condition, yes, no) => PrunedBranchRuns(eval, s, w, fuel);
    case While(test, body) => PrunedLoopRuns(eval, Some(test), body, [], w, fuel);
    case ForEach(iterable, body) =>
      var e := eval(iterable, w);
      if e.Value? {
        PrunedRepeatRuns(eval, e.word, body, e.world, fuel);
      }
    case For(start, guard, updates, body) =>
      if start.Some? {
        PrunedRuns(eval, start.value, w, fuel);
      }
      var first := if start.Some? then Exec(eval, start.value, w, fuel) else Run(Normal, w, {});
      PrunedLoopRuns(eval, guard, body, updates, first.world, fuel);
    case Switch(selector, arms, _) =>
      var e := eval(selector, w);
      if e.Value? && e.word < |arms| {
        PrunedArm(arms, e.word);
        PrunedBlockRuns(eval, arms[e.word].statements, e.world, fuel);
      }
    case Nested(block) => PrunedBlockRuns(eval, block.statements, w, fuel);
    case _ =>
  }

  lemma PrunedBranchRuns<W(!new)>(eval: Evaluator<W>, s: Statement, w: W, fuel: nat)
    requires Respects(eval) && Proper(s) && s.data.If?
    ensures Exec(eval, Pruned(s), w, fuel) == Exec(eval, s, w, fuel)
    decreases fuel, s.data, 1
  {
    var If(condition, yes, no) := s.data;
    var e := eval(condition, w);
    if IsTrue(condition) || IsFalse(condition) {
      LiteralValue(eval, condition, w);
    }
    if e.Value? {
      PrunedBlockRuns(eval, yes.statements, e.world, fuel);
      if no.Some? {
        PrunedBlockRuns(eval, no.value.statements, e.world, fuel);
      }
    }
  }

  lemma {:induction false} PrunedBlockRuns<W(!new)>(eval: Evaluator<W>, statements: seq<Statement>, w: W, fuel: nat)
    requires Respects(eval) && ProperBlock(statements)
    ensures ExecBlock(eval, PrunedStatements(statements), w, fuel) == ExecBlock(eval, statements, w, fuel)
    decreases fuel, statements, 0
  {
    if statements != [] {
      var first, rest := statements[0], statements[1..];
      PrunedRuns(eval, first, w, fuel);
      PrunedBlockRuns(eval, rest, Exec(eval, first, w, fuel).world, fuel);
      assert PrunedStatements(statements)[1..] == PrunedStatements(rest);
      assert Pruned(first).id == first.id;
    }
  }

  lemma {:induction false} PrunedLoopRuns<W(!new)>(eval: Evaluator<W>, guard: Option<Expression>, body: Block,
                                                   updates: seq<Expression>, w: W, fuel: nat)
    requires Respects(eval) && ProperBlock(body.statements)
    ensures Loop(eval, guard, PrunedBlock(body), updates, w, fuel) == Loop(eval, guard, body, updates, w, fuel)
    decreases fuel, body, 1
  {
    if fuel > 0 {
      var test := if guard.Some? then eval(guard.value, w) else Value(1, w);
      if test.Value? {
        PrunedBlockRuns(eval, body.statements, test.world, fuel);
        var turn := ExecBlock(eval, body.statements, test.world, fuel);
        var updated := Then(turn, Update(eval, updates, turn.world));
        PrunedLoopRuns(eval, guard, body, updates, updated.world, fuel - 1);
      }
    }
  }

  lemma {:induction false} PrunedRepeatRuns<W(!new)>(eval: Evaluator<W>, turns: nat, body: Block, w: W, fuel: nat)
    requires Respects(eval) && ProperBlock(body.statements)
    ensures Repeat(eval, turns, PrunedBlock(body), w, fuel) == Repeat(eval, turns, body, w, fuel)
    decreases fuel, body, 1, turns
  {
    if turns > 0 {
      PrunedBlockRuns(eval, body.statements, w, fuel);
      PrunedRepeatRuns(eval, turns - 1, body, ExecBlock(eval, body.statements, w, fuel).world, fuel);
    }
  }

  lemma PrunedCanEnd(s: Statement, breaks: bool)
    requires Proper(s)
    ensures CanEnd(s, breaks) <==> CanEnd(Pruned(s), breaks)
  {
    forall eval: Evaluator<seq<nat>>, w, fuel: nat | Respects(eval)
      ensures Exec(eval, s, w, fuel) == Exec(eval, Pruned(s), w, fuel)
    {
      PrunedRuns(eval, s, w, fuel);
    }
  }

  /** For every typed body that passes verification, the analysis is right exactly when it says the same of the body
      with its literal branches taken. */
  lemma LiteralBranchesDecide(s: Statement, breaks: bool)
    requires Proper(s) && Verified(s)
    ensures (Claims(StatementFlow(s), breaks) <==> CanEnd(s, breaks))
       <==> (Claims(StatementFlow(s), breaks) <==> Claims(StatementFlow(Pruned(s)), breaks))
  {
    PrunedIsOpen(s);
    PrunedIsVerified(s);
    VerifiedIsSettled(Pruned(s));
    AnalysisIsExact(Pruned(s), breaks);
    PrunedCanEnd(s, breaks);
  }

  /** A statement that the analysis lets fall through and that never does. */
  lemma LiteralBranchIsLoose()
    ensures var s := Statement(0, If(Literal(false, true, "true"), Block([Statement(1, Return(None))]), None));
            Verified(s) && StatementFlow(s).canFall && !CanEnd(s, false)
  {
    var back := [Statement(1, Return(None))];
    var s := Statement(0, If(Literal(false, true, "true"), Block(back), None));
    forall eval: Evaluator<seq<nat>>, w, fuel: nat | Respects(eval) ensures Exec(eval, s, w, fuel).outcome.Returned? {
      assert Evaluates(eval, Literal(false, true, "true"), w);
      assert Exec(eval, back[0], w, fuel).outcome.Returned?;
    }
  }

  /** For a loop over settled parts, the analysis of its breaks is right exactly when its initializer is settled too. */
  lemma LoopInitializerDecides(s: Statement)
    requires s.data.For? && s.data.start.Some? && Open(s) && Settled(s.data.start.value)
    requires SettledBlock(s.data.body.statements)
    ensures Settled(s) <==> (CanEnd(s, true) <==> StatementFlow(s).hasBreak)
  {
    var start := s.data.start.value;
    if Settled(s) {
      AnalysisIsExact(s, true);
    } else {
      ScriptedRespects();
      var script := ScriptStatement(start, true, []);
      assert Exec(Scripted(), s, script + [], 1).outcome == Broke;
      assert CanEnd(s, true);
    }
  }

  // ----- callables -----

  /** A body that runs after the initializers before it, which may be none. */
  function CallableFlow(initializers: seq<Expression>, body: Block): Flow {
    BlockFlow(body, forall i :: 0 <= i < |initializers| ==> !NeverCompletes(initializers[i]))
  }

  function Call<W>(eval: Evaluator<W>, initializers: seq<Expression>, body: Block, w: W, fuel: nat): Run<W> {
    var entry := Update(eval, initializers, w);
    if entry.outcome.Normal? then Then(entry, ExecBlock(eval, body.statements, entry.world, fuel)) else entry
  }

  lemma {:induction false} BottomStopsEntry<W(!new)>(eval: Evaluator<W>, initializers: seq<Expression>, w: W, i: nat)
    requires Respects(eval) && i < |initializers| && NeverCompletes(initializers[i])
    ensures !Update(eval, initializers, w).outcome.Normal?
  {
    RespectsIsHonest(eval);
    if i > 0 && eval(initializers[0], w).Value? {
      BottomStopsEntry(eval, initializers[1..], eval(initializers[0], w).world, i - 1);
    }
  }

  /** A callable that can end without returning or throwing is one that can fall through; so where the analysis
      finds no fall-through and no stray break, every finished call returns, throws or continues. */
  lemma CallableSound<W(!new)>(eval: Evaluator<W>, initializers: seq<Expression>, body: Block, w: W, fuel: nat)
    requires Respects(eval) && SettledBlock(body.statements)
    ensures Allows(CallableFlow(initializers, body), Call(eval, initializers, body, w, fuel))
  {
    RespectsIsHonest(eval);
    UpdatesExecuteNothing(eval, initializers, w);
    var entry := Update(eval, initializers, w);
    if i :| 0 <= i < |initializers| && NeverCompletes(initializers[i]) {
      BottomStopsEntry(eval, initializers, w, i);
    } else {
      BlockSound(eval, body, entry.world, fuel);
    }
  }

  // ----- loop initializers -----

  /** What verification of a body demands of its loop initializers. */
  predicate Verified(s: Statement) {
    match s.data
    case If(_, yes, no) => VerifiedBlock(yes.statements) && (no.Some? ==> VerifiedBlock(no.value.statements))
    case While(_, body) => VerifiedBlock(body.statements)
    case ForEach(_, body) => VerifiedBlock(body.statements)
    case For(start, _, _, body) => (start.Some? ==> start.value.data.Local? || start.value.data.Evaluate?)
        && VerifiedBlock(body.statements)
    case Switch(_, arms, _) => forall i :: 0 <= i < |arms| ==> VerifiedBlock(arms[i].statements)
    case Nested(block) => VerifiedBlock(block.statements)
    case _ => true
  }

  predicate VerifiedBlock(statements: seq<Statement>) {
    forall i :: 0 <= i < |statements| ==> Verified(statements[i])
  }

  lemma {:induction false} VerifiedIsSettled(s: Statement)
    requires Verified(s)
    ensures Settled(s)
    decreases s, 0
  {
    match s.data
    case If(_, yes, no) =>
      VerifiedBlockIsSettled(yes.statements);
      if no.Some? {
        VerifiedBlockIsSettled(no.value.statements);
      }
    case While(_, body) => VerifiedBlockIsSettled(body.statements);
    case ForEach(_, body) => VerifiedBlockIsSettled(body.statements);
    case For(start, _, _, body) => VerifiedBlockIsSettled(body.statements);
    case Switch(_, arms, _) =>
      forall i | 0 <= i < |arms| ensures SettledBlock(arms[i].statements) {
        VerifiedBlockIsSettled(arms[i].statements);
      }
    case Nested(block) => VerifiedBlockIsSettled(block.statements);
    case _ =>
  }

  lemma {:induction false} VerifiedBlockIsSettled(statements: seq<Statement>)
    requires VerifiedBlock(statements)
    ensures SettledBlock(statements)
    decreases statements, 1
  {
    forall i | 0 <= i < |statements| ensures Settled(statements[i]) {
      VerifiedIsSettled(statements[i]);
    }
  }

  /** Without that demand the analysis would lose a break: one in a loop initializer that may also fall through. */
  lemma UnsettledBreakIsLost(eval: Evaluator<nat>, w: nat)
    requires Respects(eval) && eval(Other(false, 0), w) == Value(1, w)
    ensures var jump := Block([Statement(2, Break)]);
            var start := Statement(1, If(Other(false, 0), jump, None));
            var loop := Statement(0, For(Some(start), None, [], Block([])));
            !Settled(loop) && Exec(eval, loop, w, 1).outcome.Broke? && !StatementFlow(loop).hasBreak
  {
    var jump := [Statement(2, Break)];
    assert StatementsFlow(jump, OPEN) == StatementsFlow(jump[1..], AfterStatement(jump[0], OPEN));
    var start := Statement(1, If(Other(false, 0), Block(jump), None));
    assert Exec(eval, start, w, 1) == ExecBlock(eval, jump, w, 1);
    assert Exec(eval, jump[0], w, 1).outcome.Broke?;
  }

  // ----- the analyzer as it runs -----

  class Analyzer {
    var reachable: nat
    var unreachable: nat
    /** The statements warned about. */
    var warnings: seq<nat>

    constructor ()
      ensures reachable == unreachable == 0 && warnings == []
    {
      reachable, unreachable, warnings := 0, 0, [];
    }

    ghost predicate Adds(flow: Flow, canFall: bool, hasBreak: bool, before: nat, dead: nat, warned: seq<nat>)
      reads this
    {
      && canFall == flow.canFall && hasBreak == flow.hasBreak
      && reachable == before + |flow.reached| && unreachable == dead + |flow.dead| && warnings == warned + flow.dead
    }

    method AnalyzeBlock(block: Block, isReachable: bool) returns (canFall: bool, hasBreak: bool)
      modifies this
      ensures Adds(BlockFlow(block, isReachable), canFall, hasBreak, old(reachable), old(unreachable), old(warnings))
      decreases block, 0
    {
      canFall, hasBreak := isReachable, false;
      ghost var flow := Flow(isReachable, false, [], []);
      for i := 0 to |block.statements|
        invariant StatementsFlow(block.statements[i..], flow) == BlockFlow(block, isReachable)
        invariant Adds(flow, canFall, hasBreak, old(reachable), old(unreachable), old(warnings))
      {
        var s := block.statements[i];
        assert block.statements[i..][1..] == block.statements[i + 1..];
        flow := AfterStatement(s, flow);
        if !canFall {
          unreachable, warnings := unreachable + 1, warnings + [s.id];
        } else {
          reachable := reachable + 1;
          var falls, breaks := AnalyzeStatement(s);
          canFall, hasBreak := falls, hasBreak || breaks;
        }
      }
    }

    method AnalyzeStatement(s: Statement) returns (canFall: bool, hasBreak: bool)
      modifies this
      ensures Adds(StatementFlow(s), canFall, hasBreak, old(reachable), old(unreachable), old(warnings))
      decreases s, 0
    {
      match s.data
      case Return(_) => return false, false;
      case Break => return false, true;
      case Continue => return false, false;
      case Local(initializer) => return !(initializer.Some? && NeverCompletes(initializer.value)), false;
      case Evaluate(expression) => return !NeverCompletes(expression), false;
      case If(condition, yes, no) =>
        if NeverCompletes(condition) { return false, false; }
        canFall, hasBreak := AnalyzeBlock(yes, true);
        var elseFalls, elseBreaks := true, false;
        if no.Some? {
          elseFalls, elseBreaks := AnalyzeBlock(no.value, true);
        }
        canFall, hasBreak := canFall || elseFalls, hasBreak || elseBreaks;
      case While(test, body) =>
        if NeverCompletes(test) { return false, false; }
        canFall, hasBreak := AnalyzeBlock(body, true);
        canFall, hasBreak := !IsTrue(test) || hasBreak, false;
      case Switch(selector, arms, exhaustive) =>
        if NeverCompletes(selector) { return false, false; }
        canFall := AnalyzeArms(arms, exhaustive);
        hasBreak := false;
        ArmsNeverBreak(arms, OPEN.(canFall := !exhaustive));
      case ForEach(iterable, body) =>
        if NeverCompletes(iterable) { return false, false; }
        canFall, hasBreak := AnalyzeBlock(body, true);
        canFall, hasBreak := true, false;
      case For(start, guard, updates, body) =>
        canFall, hasBreak := true, false;
        if start.Some? {
          canFall, hasBreak := AnalyzeStatement(start.value);
          if !canFall { return; }
        }
        if guard.Some? && NeverCompletes(guard.value) { return false, false; }
        canFall, hasBreak := AnalyzeBlock(body, true);
        canFall, hasBreak := (guard.Some? && !IsTrue(guard.value)) || hasBreak, false;
      case Nested(block) =>
        canFall, hasBreak := AnalyzeBlock(block, true);
      case Invalid => return true, false;
    }

    method AnalyzeArms(arms: seq<Block>, exhaustive: bool) returns (canFall: bool)
      modifies this
      ensures Adds(ArmsFlow(arms, OPEN.(canFall := !exhaustive)), canFall, false, old(reachable), old(unreachable),
                   old(warnings))
      decreases arms, 0
    {
      canFall := !exhaustive;
      ghost var flow := OPEN.(canFall := !exhaustive);
      for i := 0 to |arms|
        invariant ArmsFlow(arms[i..], flow) == ArmsFlow(arms, OPEN.(canFall := !exhaustive))
        invariant Adds(flow, canFall, false, old(reachable), old(unreachable), old(warnings))
      {
        assert arms[i..][1..] == arms[i + 1..];
        flow := AfterArm(arms[i], flow);
        var falls, breaks := AnalyzeBlock(arms[i], true);
        canFall := canFall || falls || breaks;
      }
    }
  }

  lemma {:induction false} ArmsNeverBreak(arms: seq<Block>, before: Flow)
    requires !before.hasBreak
    ensures !ArmsFlow(arms, before).hasBreak
  {
    if arms != [] {
      ArmsNeverBreak(arms[1..], AfterArm(arms[0], before));
    }
  }
}
