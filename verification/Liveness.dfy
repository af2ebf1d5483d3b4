/** Which roots are still needed at each program point: the path-based meaning, and the
    backward fixpoint the code generator computes, proved to be exactly that meaning. */
module Liveness {
  import opened Mir

  // ----- meaning -----

  /** The point before instruction `index` of `block`; the point before the terminator
      when `index` is the number of instructions. */
  datatype Point = Point(block: BlockId, index: nat)

  predicate ValidPoint(body: Body, p: Point) {
    IsReachable(body, p.block) && p.index <= |body.blocks[p.block].instructions|
  }

  predicate AtTerminator(body: Body, p: Point)
    requires ValidPoint(body, p)
  {
    p.index == |body.blocks[p.block].instructions|
  }

  ghost predicate UsedAt(body: Body, p: Point, r: Root)
    requires ValidPoint(body, p)
  {
    var block := body.blocks[p.block];
    if AtTerminator(body, p) then
      || r in ValueRoots(TerminatorUses(block.terminator))
      || exists s :: s in Successors(block.terminator) && IsReachable(body, s)
                  && r in PhiUses(body.blocks[s], p.block)
    else
      r in Uses(block.instructions[p.index])
  }

  predicate DefinedAt(body: Body, p: Point, r: Root)
    requires ValidPoint(body, p)
  {
    !AtTerminator(body, p) && r in Definitions(body.blocks[p.block].instructions[p.index])
  }

  predicate Follows(body: Body, p: Point, q: Point)
    requires ValidPoint(body, p) && ValidPoint(body, q)
  {
    if AtTerminator(body, p) then
      q.index == 0 && q.block in Successors(body.blocks[p.block].terminator)
    else
      q == Point(p.block, p.index + 1)
  }

  /** A path through reachable blocks that ends at a use of `r` and does not overwrite it before. */
  ghost predicate IsUsePath(body: Body, path: seq<Point>, r: Root) {
    && |path| > 0
    && (forall k :: 0 <= k < |path| ==> ValidPoint(body, path[k]))
    && (forall k :: 0 <= k < |path| - 1 ==> Follows(body, path[k], path[k + 1]) && !DefinedAt(body, path[k], r))
    && UsedAt(body, path[|path| - 1], r)
  }

  ghost predicate LiveAt(body: Body, p: Point, r: Root) {
    exists path: seq<Point> :: IsUsePath(body, path, r) && path[0] == p
  }

  lemma LiveFromUse(body: Body, p: Point, r: Root)
    requires ValidPoint(body, p) && UsedAt(body, p, r)
    ensures LiveAt(body, p, r)
  {
    assert IsUsePath(body, [p], r) && [p][0] == p;
  }

  lemma LiveFromNext(body: Body, p: Point, q: Point, r: Root)
    requires ValidPoint(body, p) && ValidPoint(body, q) && Follows(body, p, q)
    requires !DefinedAt(body, p, r) && LiveAt(body, q, r)
    ensures LiveAt(body, p, r)
  {
    var path :| IsUsePath(body, path, r) && path[0] == q;
    LongerPath(body, p, path, r);
    assert ([p] + path)[0] == p;
  }

  lemma LongerPath(body: Body, p: Point, path: seq<Point>, r: Root)
    requires IsUsePath(body, path, r) && ValidPoint(body, p) && Follows(body, p, path[0]) && !DefinedAt(body, p, r)
    ensures IsUsePath(body, [p] + path, r)
  {
    var longer := [p] + path;
    forall k | 0 <= k < |longer| ensures ValidPoint(body, longer[k]) {
      if k > 0 {
        assert longer[k] == path[k - 1];
      }
    }
    forall k | 0 <= k < |longer| - 1 ensures Follows(body, longer[k], longer[k + 1]) && !DefinedAt(body, longer[k], r) {
      if k > 0 {
        assert longer[k] == path[k - 1] && longer[k + 1] == path[k];
      }
    }
    assert longer[|longer| - 1] == path[|path| - 1];
  }

  // ----- the analysis -----

  /** What an instruction does to a live set. */
  datatype Flow = Flow(uses: set<Root>, definitions: set<Root>)

  function FlowOf(instruction: Instruction, roots: set<Root>): Flow {
    Flow(Uses(instruction) * roots, Definitions(instruction))
  }

  function Flows(instructions: seq<Instruction>, roots: set<Root>): (flows: seq<Flow>)
    ensures |flows| == |instructions|
    ensures forall k :: 0 <= k < |flows| ==> flows[k] == FlowOf(instructions[k], roots)
  {
    seq(|instructions|, k requires 0 <= k < |instructions| => FlowOf(instructions[k], roots))
  }

  /** The live set before an instruction, from the one after it. */
  function Before(flow: Flow, after: set<Root>): set<Root> {
    (after - flow.definitions) + flow.uses
  }

  /** The live set before instruction `i`, from the one before the terminator. */
  function Scan(flows: seq<Flow>, i: nat, atEnd: set<Root>): set<Root>
    requires i <= |flows|
    decreases |flows| - i
  {
    if i == |flows| then atEnd else Before(flows[i], Scan(flows, i + 1, atEnd))
  }

  /** What a block's terminator reads of the roots. */
  function TerminatorRoots(block: Block, roots: set<Root>): set<Root> {
    ValueRoots(TerminatorUses(block.terminator)) * roots
  }

  /** What a block summary has to satisfy: it does to any live-out set what scanning the block does.
      Its uses are the roots read before the block overwrites them, its definitions the roots it overwrites. */
  ghost predicate Summarises(summary: Flow, block: Block, roots: set<Root>) {
    forall out: set<Root> | out <= roots ::
      Before(summary, out) == Scan(Flows(block.instructions, roots), 0, out + TerminatorRoots(block, roots))
  }

  lemma {:induction false} ScanSplit(flows: seq<Flow>, n: nat, i: nat, atEnd: set<Root>)
    requires i <= n < |flows|
    ensures Scan(flows[..n + 1], i, atEnd) == Scan(flows[..n], i, Before(flows[n], atEnd))
    decreases n - i
  {
    if i < n {
      ScanSplit(flows, n, i + 1, atEnd);
    } else {
      assert Scan(flows[..n + 1], n + 1, atEnd) == atEnd;
    }
  }

  /** Two flows in sequence act as one. */
  function Compose(first: Flow, second: Flow): Flow {
    Flow(first.uses + (second.uses - first.definitions), first.definitions + second.definitions)
  }

  lemma ComposeActsInTurn(first: Flow, second: Flow, after: set<Root>)
    ensures Before(Compose(first, second), after) == Before(first, Before(second, after))
  {
  }

  method SummariseBlock(block: Block, roots: set<Root>) returns (summary: Flow)
    ensures Summarises(summary, block, roots)
    ensures summary.uses <= roots
  {
    var flows := Flows(block.instructions, roots);
    var sofar := Flow({}, {});
    for n := 0 to |flows|
      invariant sofar.uses <= roots
      invariant forall live: set<Root> :: Before(sofar, live) == Scan(flows[..n], 0, live)
    {
      forall live: set<Root> ensures Before(Compose(sofar, flows[n]), live) == Scan(flows[..n + 1], 0, live) {
        ScanSplit(flows, n, 0, live);
        ComposeActsInTurn(sofar, flows[n], live);
      }
      sofar := Compose(sofar, flows[n]);
    }
    assert flows[..|flows|] == flows;
    summary := Flow(sofar.uses + (TerminatorRoots(block, roots) - sofar.definitions), sofar.definitions);
    forall out: set<Root> | out <= roots
      ensures Before(summary, out) == Scan(flows, 0, out + TerminatorRoots(block, roots))
    {
      assert Before(summary, out) == Before(sofar, out + TerminatorRoots(block, roots));
    }
  }

  /** What flows out of a block: what its reachable successors need, and what their phis read on the edge. */
  function LiveOut(body: Body, block: BlockId, successors: seq<BlockId>, roots: set<Root>,
                   liveIn: seq<set<Root>>): set<Root>
    requires |liveIn| == |body.blocks|
  {
    if successors == [] then {}
    else
      var rest := LiveOut(body, block, successors[1..], roots, liveIn);
      if !IsReachable(body, successors[0]) then rest
      else liveIn[successors[0]] + PhiUses(body.blocks[successors[0]], block) * roots + rest
  }

  lemma {:induction false} LiveOutMember(body: Body, block: BlockId, successors: seq<BlockId>, roots: set<Root>,
                                         liveIn: seq<set<Root>>, r: Root)
    requires |liveIn| == |body.blocks|
    ensures r in LiveOut(body, block, successors, roots, liveIn)
       <==> exists s :: s in successors && IsReachable(body, s)
                     && (r in liveIn[s] || (r in roots && r in PhiUses(body.blocks[s], block)))
  {
    if successors != [] {
      LiveOutMember(body, block, successors[1..], roots, liveIn, r);
      assert forall s :: s in successors <==> s == successors[0] || s in successors[1..];
    }
  }

  lemma {:induction false} LiveOutMonotone(body: Body, block: BlockId, successors: seq<BlockId>, roots: set<Root>,
                                           liveIn: seq<set<Root>>, larger: seq<set<Root>>)
    requires |liveIn| == |larger| == |body.blocks|
    requires forall b :: 0 <= b < |liveIn| ==> liveIn[b] <= larger[b]
    ensures LiveOut(body, block, successors, roots, liveIn) <= LiveOut(body, block, successors, roots, larger)
  {
    if successors != [] {
      LiveOutMonotone(body, block, successors[1..], roots, liveIn, larger);
    }
  }

  function OutOf(body: Body, b: BlockId, roots: set<Root>, liveIn: seq<set<Root>>): set<Root>
    requires |liveIn| == |body.blocks| && InRange(body, b)
  {
    LiveOut(body, b, Successors(body.blocks[b].terminator), roots, liveIn)
  }

  /** The dataflow equations at one block. */
  ghost predicate Balanced(body: Body, roots: set<Root>, summaries: seq<Flow>,
                           liveIn: seq<set<Root>>, liveOut: seq<set<Root>>, b: BlockId)
    requires |summaries| == |liveIn| == |liveOut| == |body.blocks| && InRange(body, b)
  {
    body.blocks[b].reachable ==>
      liveOut[b] == OutOf(body, b, roots, liveIn) && liveIn[b] == Before(summaries[b], liveOut[b])
  }

  /** What every round keeps: the tables hold live roots only, and never more than one further round would give. */
  ghost predicate Grounded(body: Body, roots: set<Root>, summaries: seq<Flow>,
                           liveIn: seq<set<Root>>, liveOut: seq<set<Root>>)
    requires |summaries| == |liveIn| == |liveOut| == |body.blocks|
  {
    forall b :: 0 <= b < |body.blocks| ==> GroundedAt(body, roots, summaries, liveIn, liveOut, b)
  }

  ghost predicate GroundedAt(body: Body, roots: set<Root>, summaries: seq<Flow>,
                             liveIn: seq<set<Root>>, liveOut: seq<set<Root>>, b: BlockId)
    requires |summaries| == |liveIn| == |liveOut| == |body.blocks| && InRange(body, b)
  {
    && Summarises(summaries[b], body.blocks[b], roots)
    && summaries[b].uses <= roots
    && Founded(body, roots, summaries[b], liveIn, b, liveIn[b], liveOut[b])
  }

  /** A block's sets hold live roots only, and no more than one round over the tables gives. */
  ghost predicate Founded(body: Body, roots: set<Root>, summary: Flow, liveIn: seq<set<Root>>, b: BlockId,
                          atStart: set<Root>, atEnd: set<Root>)
    requires |liveIn| == |body.blocks| && InRange(body, b)
  {
    && atStart <= roots && atEnd <= roots
    && (!body.blocks[b].reachable ==> atStart == {} && atEnd == {})
    && (body.blocks[b].reachable ==>
          && (forall r :: r in atStart ==> LiveAt(body, Point(b, 0), r))
          && atEnd <= OutOf(body, b, roots, liveIn)
          && atStart <= Before(summary, atEnd))
  }

  lemma FoundedOnMore(body: Body, roots: set<Root>, summary: Flow, liveIn: seq<set<Root>>, larger: seq<set<Root>>,
                      b: BlockId, atStart: set<Root>, atEnd: set<Root>)
    requires |liveIn| == |larger| == |body.blocks| && InRange(body, b)
    requires forall c :: 0 <= c < |liveIn| ==> liveIn[c] <= larger[c]
    requires Founded(body, roots, summary, liveIn, b, atStart, atEnd)
    ensures Founded(body, roots, summary, larger, b, atStart, atEnd)
  {
    LiveOutMonotone(body, b, Successors(body.blocks[b].terminator), roots, liveIn, larger);
  }

  lemma ScanMember(flows: seq<Flow>, i: nat, atEnd: set<Root>, r: Root)
    requires i < |flows|
    ensures r in Scan(flows, i, atEnd) <==>
              r in flows[i].uses || (r !in flows[i].definitions && r in Scan(flows, i + 1, atEnd))
  {
  }

  /** Every root that a scan finds is live, when those it starts from are. */
  lemma {:induction false} ScanFindsLive(body: Body, b: BlockId, i: nat, roots: set<Root>, atEnd: set<Root>, r: Root)
    requires IsReachable(body, b) && i <= |body.blocks[b].instructions|
    requires forall q :: q in atEnd ==> LiveAt(body, Point(b, |body.blocks[b].instructions|), q)
    requires r in Scan(Flows(body.blocks[b].instructions, roots), i, atEnd)
    ensures LiveAt(body, Point(b, i), r)
    decreases |body.blocks[b].instructions| - i
  {
    var instructions := body.blocks[b].instructions;
    if i < |instructions| {
      var flows := Flows(instructions, roots);
      ScanMember(flows, i, atEnd, r);
      if r in flows[i].uses {
        UseIsLive(body, b, i, roots, r);
      } else {
        ScanFindsLive(body, b, i + 1, roots, atEnd, r);
        PassIsLive(body, b, i, roots, r);
      }
    }
  }

  lemma UseIsLive(body: Body, b: BlockId, i: nat, roots: set<Root>, r: Root)
    requires IsReachable(body, b) && i < |body.blocks[b].instructions|
    requires r in FlowOf(body.blocks[b].instructions[i], roots).uses
    ensures LiveAt(body, Point(b, i), r)
  {
    LiveFromUse(body, Point(b, i), r);
  }

  lemma PassIsLive(body: Body, b: BlockId, i: nat, roots: set<Root>, r: Root)
    requires IsReachable(body, b) && i < |body.blocks[b].instructions|
    requires r !in FlowOf(body.blocks[b].instructions[i], roots).definitions && LiveAt(body, Point(b, i + 1), r)
    ensures LiveAt(body, Point(b, i), r)
  {
    LiveFromNext(body, Point(b, i), Point(b, i + 1), r);
  }

  lemma OutIsLive(body: Body, roots: set<Root>, summaries: seq<Flow>,
                  liveIn: seq<set<Root>>, liveOut: seq<set<Root>>, b: BlockId, r: Root)
    requires |summaries| == |liveIn| == |liveOut| == |body.blocks|
    requires Grounded(body, roots, summaries, liveIn, liveOut)
    requires IsReachable(body, b) && r in OutOf(body, b, roots, liveIn)
    ensures r in roots && LiveAt(body, Point(b, |body.blocks[b].instructions|), r)
  {
    var successors := Successors(body.blocks[b].terminator);
    LiveOutMember(body, b, successors, roots, liveIn, r);
    var s :| s in successors && IsReachable(body, s)
          && (r in liveIn[s] || (r in roots && r in PhiUses(body.blocks[s], b)));
    assert GroundedAt(body, roots, summaries, liveIn, liveOut, s);
    var exit := Point(b, |body.blocks[b].instructions|);
    if r in liveIn[s] {
      LiveFromNext(body, exit, Point(s, 0), r);
    } else {
      LiveFromUse(body, exit, r);
    }
  }

  lemma InIsLive(body: Body, roots: set<Root>, summaries: seq<Flow>,
                 liveIn: seq<set<Root>>, liveOut: seq<set<Root>>, b: BlockId, r: Root)
    requires |summaries| == |liveIn| == |liveOut| == |body.blocks|
    requires Grounded(body, roots, summaries, liveIn, liveOut)
    requires IsReachable(body, b) && r in Before(summaries[b], OutOf(body, b, roots, liveIn))
    ensures LiveAt(body, Point(b, 0), r)
  {
    var out := OutOf(body, b, roots, liveIn);
    var exit := Point(b, |body.blocks[b].instructions|);
    var atTerminator := TerminatorRoots(body.blocks[b], roots);
    forall q | q in out + atTerminator
      ensures LiveAt(body, exit, q) && (q in out ==> q in roots)
    {
      if q in out {
        OutIsLive(body, roots, summaries, liveIn, liveOut, b, q);
      } else {
        LiveFromUse(body, exit, q);
      }
    }
    assert GroundedAt(body, roots, summaries, liveIn, liveOut, b);
    assert out <= roots;
    ScanFindsLive(body, b, 0, roots, out + atTerminator, r);
  }

  /** Replacing one block's tables by the next round keeps them grounded and only adds roots. */
  lemma RoundKeepsGround(body: Body, roots: set<Root>, summaries: seq<Flow>,
                         liveIn: seq<set<Root>>, liveOut: seq<set<Root>>, b: BlockId,
                         nextOut: set<Root>, nextIn: set<Root>)
    requires |summaries| == |liveIn| == |liveOut| == |body.blocks|
    requires Grounded(body, roots, summaries, liveIn, liveOut)
    requires IsReachable(body, b)
    requires nextOut == OutOf(body, b, roots, liveIn)
    requires nextIn == Before(summaries[b], nextOut)
    ensures liveOut[b] <= nextOut <= roots && liveIn[b] <= nextIn <= roots
    ensures Grounded(body, roots, summaries, liveIn[b := nextIn], liveOut[b := nextOut])
  {
    assert GroundedAt(body, roots, summaries, liveIn, liveOut, b);
    forall r | r in nextOut ensures r in roots { OutIsLive(body, roots, summaries, liveIn, liveOut, b, r); }
    forall r | r in nextIn ensures LiveAt(body, Point(b, 0), r) {
      InIsLive(body, roots, summaries, liveIn, liveOut, b, r);
    }
    var newIn, newOut := liveIn[b := nextIn], liveOut[b := nextOut];
    forall c | 0 <= c < |body.blocks| ensures GroundedAt(body, roots, summaries, newIn, newOut, c) {
      assert GroundedAt(body, roots, summaries, liveIn, liveOut, c);
      RoundKeepsBlock(body, roots, summaries, liveIn, liveOut, b, nextOut, nextIn, c);
    }
  }

  lemma RoundKeepsBlock(body: Body, roots: set<Root>, summaries: seq<Flow>, liveIn: seq<set<Root>>,
                        liveOut: seq<set<Root>>, b: BlockId, nextOut: set<Root>, nextIn: set<Root>, c: BlockId)
    requires |summaries| == |liveIn| == |liveOut| == |body.blocks| && InRange(body, c)
    requires GroundedAt(body, roots, summaries, liveIn, liveOut, c) && IsReachable(body, b)
    requires nextOut == OutOf(body, b, roots, liveIn) && nextIn == Before(summaries[b], nextOut)
    requires liveIn[b] <= nextIn && liveOut[b] <= nextOut <= roots && nextIn <= roots
    requires forall r :: r in nextIn ==> LiveAt(body, Point(b, 0), r)
    ensures GroundedAt(body, roots, summaries, liveIn[b := nextIn], liveOut[b := nextOut], c)
  {
    var larger := liveIn[b := nextIn];
    if c == b {
      assert Founded(body, roots, summaries[b], liveIn, b, nextIn, nextOut);
      FoundedOnMore(body, roots, summaries[b], liveIn, larger, b, nextIn, nextOut);
    } else {
      FoundedOnMore(body, roots, summaries[c], liveIn, larger, c, liveIn[c], liveOut[c]);
    }
  }

  /** The facts still missing from the tables; each change to a table removes some. */
  ghost function Missing(roots: set<Root>, liveIn: seq<set<Root>>, liveOut: seq<set<Root>>): set<(nat, bool, Root)>
    requires |liveIn| == |liveOut|
  {
    set b: nat, side: bool, r | b < |liveIn| && r in roots && r !in (if side then liveIn[b] else liveOut[b])
      :: (b, side, r)
  }

  lemma ChangeShrinksMissing(roots: set<Root>, liveIn: seq<set<Root>>, liveOut: seq<set<Root>>, b: nat,
                             nextIn: set<Root>, nextOut: set<Root>)
    requires |liveIn| == |liveOut| && b < |liveIn|
    requires liveIn[b] <= nextIn <= roots && liveOut[b] <= nextOut <= roots
    requires nextIn != liveIn[b] || nextOut != liveOut[b]
    ensures Missing(roots, liveIn[b := nextIn], liveOut[b := nextOut]) < Missing(roots, liveIn, liveOut)
  {
    var old', new' := Missing(roots, liveIn, liveOut), Missing(roots, liveIn[b := nextIn], liveOut[b := nextOut]);
    assert new' <= old';
    if nextIn != liveIn[b] {
      assert !(nextIn <= liveIn[b]);
      var r :| r in nextIn && r !in liveIn[b];
      assert (b, true, r) in old' - new';
    } else {
      assert !(nextOut <= liveOut[b]);
      var r :| r in nextOut && r !in liveOut[b];
      assert (b, false, r) in old' - new';
    }
  }

  /** The tables the code generator keeps: per block at entry, at exit, after the phis, and after each instruction. */
  datatype Tables = Tables(liveIn: seq<set<Root>>, liveOut: seq<set<Root>>,
                           afterPhis: seq<set<Root>>, afterInstructions: seq<seq<set<Root>>>)

  /** One entry of each table per block, and one per instruction. */
  ghost predicate Shaped(body: Body, t: Tables) {
    && |t.liveIn| == |t.liveOut| == |t.afterPhis| == |t.afterInstructions| == |body.blocks|
    && forall b :: 0 <= b < |body.blocks| ==> |t.afterInstructions[b]| == |body.blocks[b].instructions|
  }

  /** Every table entry of a reachable block is the path-based live set of its point. */
  ghost predicate Exact(body: Body, roots: set<Root>, t: Tables)
    requires Shaped(body, t)
  {
    forall b: BlockId, r | IsReachable(body, b) && r in roots :: ExactAt(body, t, b, r)
  }

  ghost predicate ExactAt(body: Body, t: Tables, b: BlockId, r: Root)
    requires Shaped(body, t) && InRange(body, b)
  {
    && (r in t.liveIn[b] <==> LiveAt(body, Point(b, 0), r))
    && (r in t.afterPhis[b] <==> LiveAt(body, Point(b, LeadingPhis(body.blocks[b].instructions)), r))
    && forall i {:trigger t.afterInstructions[b][i]} :: 0 <= i < |body.blocks[b].instructions| ==>
         (r in t.afterInstructions[b][i] <==> LiveAt(body, Point(b, i + 1), r))
  }

  method SummariseBlocks(body: Body, roots: set<Root>) returns (summaries: seq<Flow>)
    ensures |summaries| == |body.blocks|
    ensures forall b :: 0 <= b < |summaries| ==>
              Summarises(summaries[b], body.blocks[b], roots) && summaries[b].uses <= roots
  {
    summaries := [];
    for b := 0 to |body.blocks|
      invariant |summaries| == b
      invariant forall c :: 0 <= c < b ==>
                  Summarises(summaries[c], body.blocks[c], roots) && summaries[c].uses <= roots
    {
      var summary := SummariseBlock(body.blocks[b], roots);
      summaries := summaries + [summary];
    }
  }

  /** One pass over the blocks, last to first, replacing the tables that change. */
  method Pass(body: Body, roots: set<Root>, summaries: seq<Flow>, startIn: seq<set<Root>>, startOut: seq<set<Root>>)
    returns (liveIn: seq<set<Root>>, liveOut: seq<set<Root>>, changed: bool)
    requires |summaries| == |startIn| == |startOut| == |body.blocks|
    requires Grounded(body, roots, summaries, startIn, startOut)
    ensures |liveIn| == |liveOut| == |body.blocks|
    ensures Grounded(body, roots, summaries, liveIn, liveOut)
    ensures changed ==> Missing(roots, liveIn, liveOut) < Missing(roots, startIn, startOut)
    ensures !changed ==> liveIn == startIn && liveOut == startOut
    ensures !changed ==> forall b :: 0 <= b < |body.blocks| ==> Balanced(body, roots, summaries, liveIn, liveOut, b)
  {
    var count := |body.blocks|;
    liveIn, liveOut, changed := startIn, startOut, false;
    for b := count downto 0
      invariant |liveIn| == |liveOut| == count
      invariant Grounded(body, roots, summaries, liveIn, liveOut)
      invariant !changed ==> liveIn == startIn && liveOut == startOut
      invariant !changed ==> forall c :: b <= c < count ==> Balanced(body, roots, summaries, startIn, startOut, c)
      invariant changed ==> Missing(roots, liveIn, liveOut) < Missing(roots, startIn, startOut)
    {
      if body.blocks[b].reachable {
        var nextOut := OutOf(body, b, roots, liveIn);
        var nextIn := Before(summaries[b], nextOut);
        RoundKeepsGround(body, roots, summaries, liveIn, liveOut, b, nextOut, nextIn);
        if nextOut != liveOut[b] || nextIn != liveIn[b] {
          ChangeShrinksMissing(roots, liveIn, liveOut, b, nextIn, nextOut);
          liveOut := liveOut[b := nextOut];
          liveIn := liveIn[b := nextIn];
          changed := true;
        }
      }
    }
  }

  /** The `while (changed)` iteration. It stops for every body. */
  method Iterate(body: Body, roots: set<Root>, summaries: seq<Flow>)
    returns (liveIn: seq<set<Root>>, liveOut: seq<set<Root>>)
    requires |summaries| == |body.blocks|
    requires forall b :: 0 <= b < |summaries| ==>
               Summarises(summaries[b], body.blocks[b], roots) && summaries[b].uses <= roots
    ensures |liveIn| == |liveOut| == |body.blocks|
    ensures Grounded(body, roots, summaries, liveIn, liveOut)
    ensures forall b :: 0 <= b < |body.blocks| ==> Balanced(body, roots, summaries, liveIn, liveOut, b)
  {
    liveIn, liveOut := seq(|body.blocks|, _ => {}), seq(|body.blocks|, _ => {});
    var changed := true;
    while changed
      invariant |liveIn| == |liveOut| == |body.blocks|
      invariant Grounded(body, roots, summaries, liveIn, liveOut)
      invariant !changed ==> forall b :: 0 <= b < |body.blocks| ==> Balanced(body, roots, summaries, liveIn, liveOut, b)
      decreases Missing(roots, liveIn, liveOut), changed
    {
      liveIn, liveOut, changed := Pass(body, roots, summaries, liveIn, liveOut);
    }
  }

  /** The backward scan that records the live set after each instruction of a block. */
  method ScanBlock(flows: seq<Flow>, atEnd: set<Root>) returns (after: seq<set<Root>>)
    ensures |after| == |flows|
    ensures forall i :: 0 <= i < |after| ==> after[i] == Scan(flows, i + 1, atEnd)
  {
    after := seq(|flows|, _ => {});
    var live := atEnd;
    for i := |flows| downto 0
      invariant |after| == |flows|
      invariant live == Scan(flows, i, atEnd)
      invariant forall k :: i <= k < |flows| ==> after[k] == Scan(flows, k + 1, atEnd)
    {
      after := after[i := live];
      live := Before(flows[i], live);
    }
  }

  /** The live set the scan gives at a point. */
  function ScanAt(body: Body, roots: set<Root>, liveOut: seq<set<Root>>, b: BlockId, i: nat): set<Root>
    requires |liveOut| == |body.blocks| && InRange(body, b) && i <= |body.blocks[b].instructions|
  {
    Scan(Flows(body.blocks[b].instructions, roots), i, liveOut[b] + TerminatorRoots(body.blocks[b], roots))
  }

  /** A use path leads back to membership in the scanned set of its first point. */
  lemma {:induction false} PathIsFound(body: Body, roots: set<Root>, summaries: seq<Flow>,
                                       liveIn: seq<set<Root>>, liveOut: seq<set<Root>>, path: seq<Point>, r: Root)
    requires |summaries| == |liveIn| == |liveOut| == |body.blocks|
    requires Grounded(body, roots, summaries, liveIn, liveOut)
    requires forall b :: 0 <= b < |body.blocks| ==> Balanced(body, roots, summaries, liveIn, liveOut, b)
    requires r in roots && IsUsePath(body, path, r)
    ensures r in ScanAt(body, roots, liveOut, path[0].block, path[0].index)
    decreases |path|
  {
    var p := path[0];
    var block := body.blocks[p.block];
    assert ValidPoint(body, p) && Balanced(body, roots, summaries, liveIn, liveOut, p.block);
    if |path| > 1 {
      var q := path[1];
      assert forall k :: 0 <= k < |path[1..]| ==> path[1..][k] == path[k + 1];
      PathIsFound(body, roots, summaries, liveIn, liveOut, path[1..], r);
      assert Follows(body, p, q) && !DefinedAt(body, p, r);
      if AtTerminator(body, p) {
        assert GroundedAt(body, roots, summaries, liveIn, liveOut, q.block);
        assert Balanced(body, roots, summaries, liveIn, liveOut, q.block);
        assert r in liveIn[q.block];
        LiveOutMember(body, p.block, Successors(block.terminator), roots, liveIn, r);
      }
    } else if AtTerminator(body, p) && r !in ValueRoots(TerminatorUses(block.terminator)) {
      LiveOutMember(body, p.block, Successors(block.terminator), roots, liveIn, r);
    }
  }

  /** At the fixpoint, scanning from a reachable block's live-out set yields the live sets of its points,
      and ends at the block's live-in set. */
  lemma ScanIsExact(body: Body, roots: set<Root>, summaries: seq<Flow>,
                    liveIn: seq<set<Root>>, liveOut: seq<set<Root>>, b: BlockId, i: nat, r: Root)
    requires |summaries| == |liveIn| == |liveOut| == |body.blocks|
    requires Grounded(body, roots, summaries, liveIn, liveOut)
    requires forall b :: 0 <= b < |body.blocks| ==> Balanced(body, roots, summaries, liveIn, liveOut, b)
    requires r in roots && IsReachable(body, b) && i <= |body.blocks[b].instructions|
    ensures r in ScanAt(body, roots, liveOut, b, i) <==> LiveAt(body, Point(b, i), r)
    ensures liveIn[b] == ScanAt(body, roots, liveOut, b, 0)
  {
    assert Balanced(body, roots, summaries, liveIn, liveOut, b);
    assert GroundedAt(body, roots, summaries, liveIn, liveOut, b);
    var exit := Point(b, |body.blocks[b].instructions|);
    var atTerminator := TerminatorRoots(body.blocks[b], roots);
    forall q | q in liveOut[b] + atTerminator ensures LiveAt(body, exit, q) {
      if q in liveOut[b] {
        OutIsLive(body, roots, summaries, liveIn, liveOut, b, q);
      } else {
        LiveFromUse(body, exit, q);
      }
    }
    if r in ScanAt(body, roots, liveOut, b, i) {
      ScanFindsLive(body, b, i, roots, liveOut[b] + atTerminator, r);
    }
    if LiveAt(body, Point(b, i), r) {
      var path :| IsUsePath(body, path, r) && path[0] == Point(b, i);
      PathIsFound(body, roots, summaries, liveIn, liveOut, path, r);
    }
  }

  /** The equations the later code emission relies on: the tables step backward instruction by
      instruction, and what leaves a block covers what its successors and their phis need. */
  ghost predicate Consistent(body: Body, roots: set<Root>, t: Tables)
    requires Shaped(body, t)
  {
    forall b: BlockId | IsReachable(body, b) :: ConsistentAt(body, roots, t, b)
  }

  ghost predicate ConsistentAt(body: Body, roots: set<Root>, t: Tables, b: BlockId)
    requires Shaped(body, t) && InRange(body, b)
  {
    && t.liveOut[b] <= roots
    && t.liveIn[b] == ScanAt(body, roots, t.liveOut, b, 0)
    && t.liveOut[b] == OutOf(body, b, roots, t.liveIn)
    && t.afterPhis[b] == ScanAt(body, roots, t.liveOut, b, LeadingPhis(body.blocks[b].instructions))
    && forall i :: 0 <= i < |body.blocks[b].instructions| ==>
         t.afterInstructions[b][i] == ScanAt(body, roots, t.liveOut, b, i + 1)
  }

  /** The scans of every block, reachable or not, filled in once the fixpoint is reached. */
  method FillTables(body: Body, roots: set<Root>, liveIn: seq<set<Root>>, liveOut: seq<set<Root>>) returns (t: Tables)
    requires |liveIn| == |liveOut| == |body.blocks|
    ensures Shaped(body, t) && t.liveIn == liveIn && t.liveOut == liveOut
    ensures forall b :: 0 <= b < |body.blocks| ==> FilledAt(body, roots, t, b)
  {
    var afterPhis: seq<set<Root>>, afterInstructions: seq<seq<set<Root>>> := [], [];
    for b := 0 to |body.blocks|
      invariant |afterPhis| == b && FilledUpTo(body, roots, liveIn, liveOut, afterPhis, afterInstructions)
    {
      var atPhis, after := FillBlock(body, roots, liveIn, liveOut, b);
      FilledNext(body, roots, liveIn, liveOut, afterPhis, afterInstructions, atPhis, after);
      afterPhis := afterPhis + [atPhis];
      afterInstructions := afterInstructions + [after];
    }
    t := Tables(liveIn, liveOut, afterPhis, afterInstructions);
    FilledWhole(body, roots, t);
  }

  ghost predicate FilledUpTo(body: Body, roots: set<Root>, liveIn: seq<set<Root>>, liveOut: seq<set<Root>>,
                             afterPhis: seq<set<Root>>, afterInstructions: seq<seq<set<Root>>>)
    requires |liveIn| == |liveOut| == |body.blocks|
  {
    && |afterPhis| == |afterInstructions| <= |body.blocks|
    && forall c :: 0 <= c < |afterPhis| ==> Filled(body, roots, liveIn, liveOut, c, afterPhis[c], afterInstructions[c])
  }

  lemma FilledNext(body: Body, roots: set<Root>, liveIn: seq<set<Root>>, liveOut: seq<set<Root>>,
                   afterPhis: seq<set<Root>>, afterInstructions: seq<seq<set<Root>>>, atPhis: set<Root>,
                   after: seq<set<Root>>)
    requires |liveIn| == |liveOut| == |body.blocks| && |afterPhis| < |body.blocks|
    requires FilledUpTo(body, roots, liveIn, liveOut, afterPhis, afterInstructions)
    requires Filled(body, roots, liveIn, liveOut, |afterPhis|, atPhis, after)
    ensures FilledUpTo(body, roots, liveIn, liveOut, afterPhis + [atPhis], afterInstructions + [after])
  {
  }

  lemma FilledWhole(body: Body, roots: set<Root>, t: Tables)
    requires |t.liveIn| == |t.liveOut| == |t.afterPhis| == |body.blocks|
    requires FilledUpTo(body, roots, t.liveIn, t.liveOut, t.afterPhis, t.afterInstructions)
    ensures Shaped(body, t) && forall b :: 0 <= b < |body.blocks| ==> FilledAt(body, roots, t, b)
  {
    forall b | 0 <= b < |body.blocks| ensures |t.afterInstructions[b]| == |body.blocks[b].instructions| {
      assert Filled(body, roots, t.liveIn, t.liveOut, b, t.afterPhis[b], t.afterInstructions[b]);
    }
  }

  method FillBlock(body: Body, roots: set<Root>, liveIn: seq<set<Root>>, liveOut: seq<set<Root>>, b: BlockId)
    returns (atPhis: set<Root>, after: seq<set<Root>>)
    requires |liveIn| == |liveOut| == |body.blocks| && InRange(body, b)
    ensures Filled(body, roots, liveIn, liveOut, b, atPhis, after)
  {
    var block := body.blocks[b];
    after := ScanBlock(Flows(block.instructions, roots), liveOut[b] + TerminatorRoots(block, roots));
    var phis := LeadingPhis(block.instructions);
    atPhis := if phis == 0 then liveIn[b] else after[phis - 1];
  }

  ghost predicate Filled(body: Body, roots: set<Root>, liveIn: seq<set<Root>>, liveOut: seq<set<Root>>, b: BlockId,
                         afterPhis: set<Root>, after: seq<set<Root>>)
    requires |liveIn| == |liveOut| == |body.blocks| && InRange(body, b)
  {
    var phis := LeadingPhis(body.blocks[b].instructions);
    && |after| == |body.blocks[b].instructions|
    && (afterPhis == if phis == 0 then liveIn[b] else ScanAt(body, roots, liveOut, b, phis))
    && forall i :: 0 <= i < |after| ==> after[i] == ScanAt(body, roots, liveOut, b, i + 1)
  }

  ghost predicate FilledAt(body: Body, roots: set<Root>, t: Tables, b: BlockId)
    requires Shaped(body, t) && InRange(body, b)
  {
    Filled(body, roots, t.liveIn, t.liveOut, b, t.afterPhis[b], t.afterInstructions[b])
  }

  lemma FixpointTables(body: Body, roots: set<Root>, summaries: seq<Flow>, t: Tables, b: BlockId)
    requires Shaped(body, t) && |summaries| == |body.blocks|
    requires Grounded(body, roots, summaries, t.liveIn, t.liveOut)
    requires forall b :: 0 <= b < |body.blocks| ==> Balanced(body, roots, summaries, t.liveIn, t.liveOut, b)
    requires IsReachable(body, b) && FilledAt(body, roots, t, b)
    ensures ConsistentAt(body, roots, t, b)
    ensures forall r :: r in roots ==> ExactAt(body, t, b, r)
  {
    assert Balanced(body, roots, summaries, t.liveIn, t.liveOut, b);
    assert GroundedAt(body, roots, summaries, t.liveIn, t.liveOut, b);
    assert t.liveIn[b] == ScanAt(body, roots, t.liveOut, b, 0);
    forall r | r in roots ensures ExactAt(body, t, b, r) {
      forall i | 0 <= i <= |body.blocks[b].instructions|
        ensures r in ScanAt(body, roots, t.liveOut, b, i) <==> LiveAt(body, Point(b, i), r)
      {
        ScanIsExact(body, roots, summaries, t.liveIn, t.liveOut, b, i, r);
      }
    }
  }

  method AnalyzeGcLiveness(body: Body, roots: set<Root>) returns (t: Tables)
    ensures Shaped(body, t)
    ensures Exact(body, roots, t)
    ensures Consistent(body, roots, t)
  {
    var summaries := SummariseBlocks(body, roots);
    var liveIn, liveOut := Iterate(body, roots, summaries);
    t := FillTables(body, roots, liveIn, liveOut);
    forall b: BlockId | IsReachable(body, b)
      ensures ConsistentAt(body, roots, t, b) && forall r :: r in roots ==> ExactAt(body, t, b, r)
    {
      FixpointTables(body, roots, summaries, t, b);
    }
  }
}
