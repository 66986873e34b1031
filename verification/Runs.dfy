/**
  Runs of a node: any sequence of connecting blocks, disconnecting the last connected one with its own undo data, and
  flushing the view, on the flat chain state.
 */
module Runs {
  import opened Merkle
  import opened LeafSets
  import opened Chain
  import opened Blocks

  datatype Step = Connect(block: Block, sumsBalance: bool) | DisconnectLast | FlushView

  /** A connected block, with the state it was connected to and its undo data. */
  datatype Entry = Entry(before: State, block: Block, undo: BlockUndo)

  datatype Node = Node(state: State, trail: seq<Entry>)

  /**
    One step. A block with a repeated input does not pass BlockValidator, and a block that cannot be applied
    leaves the node as it was. Flushing moves what the view stands for to the view below.
   */
  ghost function Next(node: Node, step: Step): (r: Node)
    requires TotalCoins(node.state.coins)
    ensures TotalCoins(r.state.coins)
  {
    match step
    case Connect(block, sums) =>
      if !Distinct(block.body.inputs) then node
      else
        (match Apply(node.state, block, sums)
         case Err(e) => node
         case Ok((after, undo)) => Node(after, node.trail + [Entry(node.state, block, undo)]))
    case DisconnectLast =>
      if node.trail == [] then node
      else
        (match Disconnect(node.state, node.trail[|node.trail| - 1].undo)
         case Err(e) => node
         case Ok(before) => Node(before, node.trail[..|node.trail| - 1]))
    case FlushView => node
  }

  ghost function Run(node: Node, steps: seq<Step>): (r: Node)
    requires TotalCoins(node.state.coins)
    ensures TotalCoins(r.state.coins)
    decreases |steps|
  {
    if steps == [] then node else Run(Next(node, steps[0]), steps[1..])
  }

  /** The state after the j-th block of the trail. */
  ghost function After(node: Node, j: nat): State
    requires j < |node.trail|
  {
    if j + 1 < |node.trail| then node.trail[j + 1].before else node.state
  }

  ghost predicate LinkedAt(node: Node, j: nat)
    requires j < |node.trail|
  {
    var e := node.trail[j];
    && WellFormed(e.before)
    && Distinct(e.block.body.inputs)
    && Apply(e.before, e.block, true) == Ok((After(node, j), e.undo))
    && (j > 0 ==> e.before.header.Some?)
  }

  /** The invariant of a run: each block of the trail leads from the state before it to the next one. */
  ghost predicate Linked(node: Node)
    ensures Linked(node) ==> TotalCoins(node.state.coins)
  {
    && WellFormed(node.state)
    && forall j: nat :: j < |node.trail| ==> LinkedAt(node, j)
  }

  lemma GenesisLinked()
    ensures Linked(Node(Genesis(), []))
  {
    GenesisWellFormed();
  }

  lemma ConnectLinked(node: Node, block: Block, sums: bool)
    requires Linked(node)
    ensures Linked(Next(node, Connect(block, sums)))
  {
    hide WellFormed, Apply, Distinct;
    var next := Next(node, Connect(block, sums));
    if Distinct(block.body.inputs) && Apply(node.state, block, sums).Ok? {
      ApplyWellFormed(node.state, block, sums);
      OnlyBalanced(node.state, block, sums);
      forall j: nat | j < |next.trail| ensures LinkedAt(next, j) {
        if j < |node.trail| {
          assert LinkedAt(node, j);
          assert After(next, j) == After(node, j);
        } else if j > 0 {
          assert LinkedAt(node, j - 1);
          ApplyWellFormed(node.trail[j - 1].before, node.trail[j - 1].block, true);
        }
      }
    }
  }

  lemma OnlyBalanced(st: State, block: Block, sums: bool)
    requires WellFormed(st) && Apply(st, block, sums).Ok?
    ensures sums
  {
  }

  /** Disconnecting never fails, and gives back the state before the block if that had a best header. */
  lemma DisconnectLinked(node: Node)
    requires Linked(node) && node.trail != []
    ensures var last := node.trail[|node.trail| - 1];
      && UndoFits(node.state.coins, last.undo)
      && Next(node, DisconnectLast).trail == node.trail[..|node.trail| - 1]
      && (last.before.header.Some? ==> Next(node, DisconnectLast).state == last.before)
    ensures Linked(Next(node, DisconnectLast))
  {
    hide WellFormed, Apply, Distinct, Undo;
    var k := |node.trail| - 1;
    var last := node.trail[k];
    assert LinkedAt(node, k);
    ApplyWellFormed(last.before, last.block, true);
    DisconnectRestoresIff(last.before, last.block, true);
    UndoAlwaysFits(last.before, last.block, true);
    var next := Next(node, DisconnectLast);
    forall j: nat | j < |next.trail| ensures LinkedAt(next, j) {
      assert LinkedAt(node, j);
      assert After(next, j) == After(node, j);
    }
  }

  lemma UndoAlwaysFits(st: State, block: Block, sums: bool)
    requires WellFormed(st) && Apply(st, block, sums).Ok?
    ensures UndoFits(Apply(st, block, sums).value.0.coins, Apply(st, block, sums).value.1)
  {
    hide Apply;
    if st.header.Some? {
      UndoAfterApply(st, block, sums);
    } else {
      UndoFirst(st, block, sums);
    }
  }

  lemma NextLinked(node: Node, step: Step)
    requires Linked(node)
    ensures Linked(Next(node, step))
  {
    match step
    case Connect(block, sums) => ConnectLinked(node, block, sums);
    case DisconnectLast => if node.trail != [] { DisconnectLinked(node); }
    case FlushView =>
  }

  /** Every run keeps the invariant. */
  lemma {:induction false} RunLinked(node: Node, steps: seq<Step>)
    requires Linked(node)
    ensures Linked(Run(node, steps))
    decreases |steps|
  {
    if steps != [] {
      NextLinked(node, steps[0]);
      RunLinked(Next(node, steps[0]), steps[1..]);
    }
  }

  /**
    After every run from the empty chain: a leaf bit is set exactly when exactly one live coin has that leaf, the
    best header commits to the kernels, the outputs and the leaf set, and the last block can be disconnected
    without popping an empty stack.
   */
  lemma RunSafe(steps: seq<Step>)
    ensures var node := Run(Node(Genesis(), []), steps);
      && OneCoinPerLeaf(node.state.coins, node.state.unspent)
      && AllBelow(node.state.unspent, |node.state.outputs|)
      && (node.state.header.Some? ==> var h := node.state.header.value;
            && h.kernelRoot == MmrRoot(node.state.kernels) && h.numKernels == |node.state.kernels|
            && h.outputRoot == MmrRoot(node.state.outputs) && h.numTXOs == |node.state.outputs|
            && h.leafsetRoot == LeafsetRoot(node.state.unspent, node.state.next))
      && (node.trail != [] ==>
            && UndoFits(node.state.coins, node.trail[|node.trail| - 1].undo)
            && Disconnect(node.state, node.trail[|node.trail| - 1].undo).Ok?)
  {
    hide Apply;
    GenesisLinked();
    RunLinked(Node(Genesis(), []), steps);
    var node := Run(Node(Genesis(), []), steps);
    if node.trail != [] {
      var k := |node.trail| - 1;
      assert LinkedAt(node, k);
      UndoAlwaysFits(node.trail[k].before, node.trail[k].block, true);
      DisconnectRestoresIff(node.trail[k].before, node.trail[k].block, true);
    }
  }

  // ---------- runs that never go below the height they start from ----------

  ghost predicate StaysAbove(node: Node, steps: seq<Step>, height: nat)
    requires TotalCoins(node.state.coins)
    decreases |steps|
  {
    |node.trail| >= height && (steps != [] ==> StaysAbove(Next(node, steps[0]), steps[1..], height))
  }

  /** `later` has the same trail up to `node`, and then other blocks. */
  ghost predicate Extends(node: Node, later: Node) {
    && |node.trail| <= |later.trail|
    && later.trail[..|node.trail|] == node.trail
    && (if |later.trail| == |node.trail| then later.state == node.state
        else later.trail[|node.trail|].before == node.state)
  }

  lemma NextExtends(node: Node, later: Node, step: Step)
    requires Linked(later) && Extends(node, later) && node.state.header.Some?
    requires |Next(later, step).trail| >= |node.trail|
    ensures Extends(node, Next(later, step))
  {
    hide Apply, WellFormed, Distinct, Disconnect;
    match step
    case Connect(block, sums) =>
    case DisconnectLast =>
      if later.trail != [] {
        var k := |later.trail| - 1;
        assert LinkedAt(later, k);
        DisconnectLinked(later);
        var next := Next(later, step);
        assert next.trail[..|node.trail|] == later.trail[..|node.trail|];
        assert later.trail[k].before.header.Some? by {
          if k == 0 { assert |node.trail| == 0; }
        }
      }
    case FlushView =>
  }

  lemma {:induction false} RunExtends(node: Node, later: Node, steps: seq<Step>)
    requires Linked(later) && Extends(node, later) && node.state.header.Some?
    requires StaysAbove(later, steps, |node.trail|)
    ensures Extends(node, Run(later, steps)) && Linked(Run(later, steps))
    decreases |steps|
  {
    hide Extends, Linked, Next;
    if steps != [] {
      assert StaysAbove(Next(later, steps[0]), steps[1..], |node.trail|);
      NextExtends(node, later, steps[0]);
      NextLinked(later, steps[0]);
      RunExtends(node, Next(later, steps[0]), steps[1..]);
    }
  }

  /**
    A run that comes back to the height it started from without going below it ends in exactly the state it
    started in: k blocks connected and disconnected, with any detours, restore the node.
   */
  lemma RunReturns(node: Node, steps: seq<Step>)
    requires Linked(node) && node.state.header.Some?
    requires StaysAbove(node, steps, |node.trail|) && |Run(node, steps).trail| == |node.trail|
    ensures Run(node, steps) == node
  {
    hide Linked;
    assert node.trail[..|node.trail|] == node.trail;
    RunExtends(node, node, steps);
  }

  /** What holds before a block and is kept by connecting any block holds at the end of the trail. */
  lemma {:induction false} TrailKeeps(later: Node, j: nat, i: nat)
    requires Linked(later) && j < |later.trail|
    requires i < |later.trail[j].before.outputs| && i !in later.trail[j].before.unspent
    ensures i < |later.state.outputs| && i !in later.state.unspent
    decreases |later.trail| - j
  {
    hide Apply, WellFormed, Distinct;
    assert LinkedAt(later, j);
    var e := later.trail[j];
    assert Consistent(e.before) by { WellFormedConsistent(e.before); }
    SpentStaysSpent(e.before, e.block, true, i);
    if j + 1 < |later.trail| { TrailKeeps(later, j + 1, i); }
  }

  lemma WellFormedConsistent(st: State)
    requires WellFormed(st)
    ensures Consistent(st)
  {
  }

  /** A spent leaf stays spent until the run undoes a block at or below the height where it was spent. */
  lemma SpentUntilUndone(node: Node, steps: seq<Step>, i: nat)
    requires Linked(node) && node.state.header.Some?
    requires StaysAbove(node, steps, |node.trail|)
    requires i < |node.state.outputs| && i !in node.state.unspent
    ensures i !in Run(node, steps).state.unspent
  {
    hide Linked;
    assert node.trail[..|node.trail|] == node.trail;
    RunExtends(node, node, steps);
    var later := Run(node, steps);
    if |later.trail| > |node.trail| { TrailKeeps(later, |node.trail|, i); }
  }

  // ---------- runs in which no commitment has two live coins ----------

  ghost predicate AllUnique(node: Node, steps: seq<Step>)
    requires TotalCoins(node.state.coins)
    decreases |steps|
  {
    Unique(node.state.coins) && (steps != [] ==> AllUnique(Next(node, steps[0]), steps[1..]))
  }

  /** What a caller can check before each step: a block that gets connected adds no output whose commitment stays live. */
  ghost predicate AddsOnce(node: Node, steps: seq<Step>)
    requires TotalCoins(node.state.coins)
    decreases |steps|
  {
    steps != [] ==>
      && (steps[0].Connect? && Next(node, steps[0]) != node ==> StaysUnique(node.state.coins, steps[0].block.body))
      && AddsOnce(Next(node, steps[0]), steps[1..])
  }

  ghost predicate UniqueSoFar(node: Node)
    requires Linked(node)
  {
    && Unique(node.state.coins)
    && forall j: nat :: j < |node.trail| ==> TotalCoins(node.trail[j].before.coins) && Unique(node.trail[j].before.coins)
  }

  lemma GenesisUnique()
    ensures Linked(Node(Genesis(), [])) && UniqueSoFar(Node(Genesis(), []))
  {
    GenesisLinked();
  }

  /** One step keeps commitments unique exactly when it adds no output whose commitment stays live. */
  lemma NextUnique(node: Node, step: Step)
    requires Linked(node) && UniqueSoFar(node)
    ensures Linked(Next(node, step))
    ensures Unique(Next(node, step).state.coins) <==>
              (step.Connect? && Next(node, step) != node ==> StaysUnique(node.state.coins, step.block.body))
    ensures Unique(Next(node, step).state.coins) ==> UniqueSoFar(Next(node, step))
  {
    hide Apply, Disconnect, WellFormed, Distinct, LinkedAt, Unique, StaysUnique;
    NextLinked(node, step);
    match step
    case Connect(block, sums) =>
      if Distinct(block.body.inputs) && Apply(node.state, block, sums).Ok? {
        WellFormedConsistent(node.state);
        UniqueIff(node.state, block, sums);
      }
    case DisconnectLast =>
      if node.trail != [] { DisconnectUnique(node); }
    case FlushView =>
  }

  lemma DisconnectUnique(node: Node)
    requires Linked(node) && UniqueSoFar(node) && node.trail != []
    ensures Unique(Next(node, DisconnectLast).state.coins)
    ensures Next(node, DisconnectLast).trail == node.trail[..|node.trail| - 1]
  {
    hide Apply, WellFormed, Distinct, Unique;
    var k := |node.trail| - 1;
    DisconnectLinked(node);
    assert LinkedAt(node, k);
    if node.trail[k].before.header.None? { UndoneFirst(node.trail[k].before, node.trail[k].block); }
  }

  lemma UndoneFirst(st: State, block: Block)
    requires WellFormed(st) && st.header.None? && Apply(st, block, true).Ok?
    ensures var (after, undo) := Apply(st, block, true).value; Disconnect(after, undo) == Ok(after)
  {
    hide Apply;
    UndoFirst(st, block, true);
  }

  /** No commitment ever has two live coins in a run exactly when no connected block adds a second one. */
  lemma {:induction false} UniqueRunIff(node: Node, steps: seq<Step>)
    requires Linked(node) && UniqueSoFar(node)
    ensures AllUnique(node, steps) <==> AddsOnce(node, steps)
    decreases |steps|
  {
    hide Linked, Next, Unique, StaysUnique, UniqueSoFar;
    UniqueNow(node);
    if steps != [] {
      NextUnique(node, steps[0]);
      if Unique(Next(node, steps[0]).state.coins) { UniqueRunIff(Next(node, steps[0]), steps[1..]); }
    }
  }

  lemma UniqueNow(node: Node)
    requires Linked(node) && UniqueSoFar(node)
    ensures Unique(node.state.coins)
  {
  }
}
