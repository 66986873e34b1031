/** Node: connecting and disconnecting blocks on a view, through a cache that is flushed into it. */
module Nodes {
  import opened Bits
  import opened Backend
  import opened Chain
  import opened Blocks
  import opened Runs
  import opened CoinUpdates
  import opened CoinsViews
  import opened Wrappers

  /**
    Node::ConnectBlock. The view is a cache: without a write batch, the database view cannot be flushed into. A block
    that is rejected leaves the view as it was.
   */
  method ConnectBlock(block: Block, sumsBalance: bool, view: CoinsViewCache) returns (r: Result<BlockUndo>)
    requires view.Valid() && view.Content().next <= MAX_LEAVES
    requires |view.Content().kernels| + |block.body.kernels| <= MAX_LEAVES
    requires |view.Content().outputs| + |block.body.outputs| <= MAX_LEAVES
    modifies view, view.leafSet, view.kernelMMR, view.outputMMR
    ensures view.Valid()
    ensures match Apply(old(view.Content()), block, sumsBalance)
            case Ok((after, undo)) => r == Ok(undo) && view.Content() == after
            case Err(e) => r == Err(e) && view.Content() == old(view.Content())
    ensures old(view.Once()) && Unique(view.Content().coins) ==> view.Once()
  {
    hide *;
    ghost var before := view.Content();
    view.AsView();
    assert allocated(CachedView(view).Repr());
    var cache := Layer(view);
    r := cache.ApplyBlock(block, sumsBalance);
    view.AsView();
    if r.Ok? {
      HeaderAfterApply(before, block, sumsBalance);
      FlushInto(cache, view);
    }
    view.AsView();
  }

  /** A new cache over the view. */
  method Layer(view: CoinsViewCache) returns (cache: CoinsViewCache)
    requires view.Valid()
    ensures fresh(cache) && fresh(cache.leafSet) && fresh(cache.kernelMMR) && fresh(cache.outputMMR)
    ensures cache.Valid() && cache.base == CachedView(view) && cache.Content() == view.Content()
    ensures view.Once() ==> cache.Once()
  {
    hide *;
    view.AsView();
    assert allocated(CachedView(view).Repr());
    cache := new CoinsViewCache(CachedView(view));
    if view.Once() {
      view.OnceContent();
      cache.CleanOnce();
    }
    view.AsView();
  }

  /** Without a best header, flushing changes nothing. */
  method FlushInto(cache: CoinsViewCache, view: CoinsViewCache)
    requires cache.Valid() && cache.base == CachedView(view) && view.Valid()
    modifies cache, cache.leafSet, cache.kernelMMR, cache.outputMMR
    modifies view, view.leafSet, view.kernelMMR, view.outputMMR
    ensures view.Valid()
    ensures view.Content() == if old(cache.Content()).header.None? then old(view.Content()) else old(cache.Content())
    ensures old(cache.Content()).header.None? ==> view.Once() == old(view.Once())
    ensures old(view.Once()) && old(cache.Once()) ==> view.Once()
  {
    hide *;
    view.AsView();
    ViewOnce(view);
    cache.Parts();
    cache.Flush(null);
    cache.Parts();
    cache.CoreParts();
    view.AsView();
    ViewOnce(view);
  }

  lemma ViewOnce(view: CoinsViewCache)
    ensures CachedView(view).Once() <==> view.Once()
  {
  }

  lemma HeaderAfterApply(st: State, block: Block, sums: bool)
    requires TotalCoins(st.coins) && Apply(st, block, sums).Ok?
    ensures Apply(st, block, sums).value.0.header == Some(block.header)
  {
    hide SpendAll, AddAll, Matches;
    var st1 := st.(header := Some(block.header), kernels := st.kernels + block.body.kernels);
    SpendAllKeeps(st1, block.body.inputs);
    AddAllKeeps(SpendAll(st1, block.body.inputs).value.0, block.header.height, block.body.outputs);
  }

  /** What undoing asks of its input: the coins to remove are there, and the sizes are within 64-bit positions. */
  ghost predicate CanUndo(st: State, undo: BlockUndo)
    requires TotalCoins(st.coins)
  {
    && UndoFits(st.coins, undo)
    && (undo.previous.Some? ==> undo.previous.value.numTXOs <= MAX_LEAVES && undo.previous.value.numKernels <= MAX_LEAVES)
    && forall j :: 0 <= j < |undo.coinsSpent| ==> undo.coinsSpent[j].leafIdx + 1 < U64
  }

  /** Node::DisconnectBlock. Without a previous header, nothing is flushed and the view stays as it was. */
  method DisconnectBlock(undo: BlockUndo, view: CoinsViewCache) returns (ok: bool)
    requires view.Valid() && CanUndo(view.Content(), undo)
    modifies view, view.leafSet, view.kernelMMR, view.outputMMR
    ensures view.Valid()
    ensures match Disconnect(old(view.Content()), undo)
            case Ok(after) => ok && view.Content() == after
            case Err(e) => !ok && view.Content() == old(view.Content())
    ensures old(view.Once()) && Unique(view.Content().coins) ==> view.Once()
  {
    hide *;
    ghost var before := view.Content();
    view.AsView();
    assert allocated(CachedView(view).Repr());
    var cache := Layer(view);
    UndoNeeds(before, undo);
    ok := cache.UndoBlock(undo);
    view.AsView();
    if ok {
      FlushInto(cache, view);
    }
    view.AsView();
  }

  lemma UndoNeeds(st: State, undo: BlockUndo)
    requires TotalCoins(st.coins) && CanUndo(st, undo)
    ensures UndoFits(st.coins, undo)
    ensures undo.previous.Some? ==> undo.previous.value.numTXOs <= MAX_LEAVES && undo.previous.value.numKernels <= MAX_LEAVES
    ensures forall j :: 0 <= j < |undo.coinsSpent| ==> undo.coinsSpent[j].leafIdx + 1 < U64
    ensures Undo(st, undo).Ok? ==> Undo(st, undo).value.header == undo.previous
    ensures Disconnect(st, undo) == if Undo(st, undo).Ok? && undo.previous == None then Ok(st) else Undo(st, undo)
  {
  }

  // ---------- runs ----------

  function KernelsIn(steps: seq<Step>): nat {
    if steps == [] then 0
    else (if steps[0].Connect? then |steps[0].block.body.kernels| else 0) + KernelsIn(steps[1..])
  }

  function OutputsIn(steps: seq<Step>): nat {
    if steps == [] then 0
    else (if steps[0].Connect? then |steps[0].block.body.outputs| else 0) + OutputsIn(steps[1..])
  }

  /** No MMR can grow beyond 64-bit positions during the run. */
  ghost predicate Fits(st: State, steps: seq<Step>) {
    |st.kernels| + KernelsIn(steps) <= MAX_LEAVES && |st.outputs| + OutputsIn(steps) <= MAX_LEAVES
  }

  /** Connecting grows the MMRs by what the block holds; disconnecting never grows them. */
  lemma StepSizes(node: Runs.Node, step: Step)
    requires Linked(node)
    ensures |Next(node, step).state.kernels| <= |node.state.kernels| + if step.Connect? then |step.block.body.kernels| else 0
    ensures |Next(node, step).state.outputs| <= |node.state.outputs| + if step.Connect? then |step.block.body.outputs| else 0
  {
    hide Apply, Disconnect, WellFormed, Distinct, LinkedAt;
    match step
    case Connect(block, sums) =>
      if Distinct(block.body.inputs) && Apply(node.state, block, sums).Ok? {
        WellFormedConsistent(node.state);
        ApplyGrows(node.state, block, sums);
      }
    case DisconnectLast =>
      if node.trail != [] { DisconnectSizes(node); }
    case FlushView =>
  }

  lemma DisconnectSizes(node: Runs.Node)
    requires Linked(node) && node.trail != []
    ensures |Next(node, DisconnectLast).state.kernels| <= |node.state.kernels|
    ensures |Next(node, DisconnectLast).state.outputs| <= |node.state.outputs|
    ensures |node.state.kernels| <= MAX_LEAVES && |node.state.outputs| <= MAX_LEAVES ==>
              CanUndo(node.state, node.trail[|node.trail| - 1].undo)
  {
    hide Apply, WellFormed, Distinct, Undo, Consistent, Matches;
    var last := node.trail[|node.trail| - 1];
    assert LinkedAt(node, |node.trail| - 1);
    DisconnectLinked(node);
    WellFormedConsistent(last.before);
    ApplyGrows(last.before, last.block, true);
    ApplyWellFormed(last.before, last.block, true);
    ConsistentSize(last.before);
    if last.before.header.Some? { HeaderSizes(last.before); }
    if last.before.header.None? { DisconnectOfFirst(node); }
  }

  lemma HeaderSizes(st: State)
    requires WellFormed(st) && st.header.Some?
    ensures st.header.value.numTXOs == |st.outputs| && st.header.value.numKernels == |st.kernels|
  {
  }

  lemma DisconnectOfFirst(node: Runs.Node)
    requires Linked(node) && node.trail != [] && node.trail[|node.trail| - 1].before.header == None
    requires node.trail[|node.trail| - 1].undo.previous == None
    ensures Next(node, DisconnectLast).state == node.state
  {
  }

  /** The check of TxBody::Validate for duplicate inputs: the set of the commitments is as large as the list. */
  method HasNoDuplicates(commitments: seq<Commitment>) returns (ok: bool)
    ensures ok <==> Distinct(commitments)
  {
    var seen: set<Commitment> := {};
    var i := 0;
    while i < |commitments|
      invariant 0 <= i <= |commitments| && |seen| <= i
      invariant forall c :: c in seen <==> c in commitments[..i]
      invariant |seen| == i <==> Distinct(commitments[..i])
    {
      assert commitments[..i + 1] == commitments[..i] + [commitments[i]];
      DistinctStep(commitments, i);
      seen := seen + {commitments[i]};
      i := i + 1;
    }
    assert commitments[..i] == commitments;
    ok := |seen| == |commitments|;
  }

  lemma DistinctStep(cs: seq<Commitment>, i: nat)
    requires i < |cs|
    ensures Distinct(cs[..i + 1]) <==> Distinct(cs[..i]) && cs[i] !in cs[..i]
  {
    if Distinct(cs[..i + 1]) {
      forall j | 0 <= j < i ensures cs[..i][j] != cs[i] {
        assert cs[..i + 1][j] != cs[..i + 1][i];
      }
      forall j, k | 0 <= j < k < i ensures cs[..i][j] != cs[..i][k] {
        assert cs[..i + 1][j] != cs[..i + 1][k];
      }
    }
  }

  ghost predicate UndosOf(undos: seq<BlockUndo>, trail: seq<Entry>) {
    |undos| == |trail| && forall j :: 0 <= j < |trail| ==> undos[j] == trail[j].undo
  }

  lemma ConnectTaken(node: Runs.Node, block: Block, sums: bool, undos: seq<BlockUndo>)
    requires Linked(node) && UndosOf(undos, node.trail) && Fits(node.state, [Connect(block, sums)])
    ensures |node.state.kernels| + |block.body.kernels| <= MAX_LEAVES && |node.state.outputs| + |block.body.outputs| <= MAX_LEAVES
    ensures node.state.next <= MAX_LEAVES
    ensures !Distinct(block.body.inputs) || Apply(node.state, block, sums).Err? ==> Next(node, Connect(block, sums)) == node
    ensures Distinct(block.body.inputs) && Apply(node.state, block, sums).Ok? ==>
              && Next(node, Connect(block, sums)).state == Apply(node.state, block, sums).value.0
              && UndosOf(undos + [Apply(node.state, block, sums).value.1], Next(node, Connect(block, sums)).trail)
  {
    hide Apply, Distinct, WellFormed, LinkedAt;
    WellFormedConsistent(node.state);
    ConsistentSize(node.state);
  }

  lemma DisconnectTaken(node: Runs.Node, undos: seq<BlockUndo>)
    requires Linked(node) && UndosOf(undos, node.trail) && Fits(node.state, [DisconnectLast])
    ensures undos == [] ==> Next(node, DisconnectLast) == node
    ensures undos != [] ==>
              && CanUndo(node.state, undos[|undos| - 1])
              && match Disconnect(node.state, undos[|undos| - 1])
                 case Err(e) => Next(node, DisconnectLast) == node
                 case Ok(st) => && Next(node, DisconnectLast).state == st
                                && UndosOf(undos[..|undos| - 1], Next(node, DisconnectLast).trail)
  {
    hide Disconnect, WellFormed, LinkedAt;
    if undos != [] { DisconnectSizes(node); }
  }

  /**
    libmw::node::FlushCache with the commit of its batch: the view below stands for what this one does. Over the
    database nothing is lost, provided that no commitment had two live coins.
   */
  method FlushCache(view: CoinsViewCache)
    requires view.Valid() && (view.base.OnDB? ==> view.Once())
    modifies view, view.leafSet, view.kernelMMR, view.outputMMR
    modifies view.base.Obj(), view.base.GetLeafSet().Obj(), view.base.GetKernelMMR().Own(), view.base.GetOutputPMMR().Own()
    ensures view.Valid() && view.Content() == old(view.Content())
    ensures view.base.OnDB? ==> view.Once()
    ensures old(view.header).Some? ==> view.updates == map[] && view.base.Content() == view.Content()
  {
    hide *;
    assert allocated(CachedView(view).Repr());
    var batch := new Batch();
    if view.base.OnDB? && view.header.Some? {
      view.FlushAndCommit(batch);
    } else {
      view.CoinsAre();
      view.OnceIs();
      view.Flush(batch);
      view.CoinsAre();
      view.OnceIs();
    }
  }

  /** The view below keeps every coin through the steps: it is a cache, or nothing is flushed, or commitments stay unique. */
  ghost predicate Lossless(view: CoinsViewCache, node: Runs.Node, steps: seq<Step>)
    requires TotalCoins(node.state.coins)
    reads view
  {
    view.base.OnDB? && FlushView in steps ==> view.Once() && AllUnique(node, steps)
  }

  /** One step on the view, with the undo data of the connected blocks at hand. */
  method Take(view: CoinsViewCache, step: Step, undos: seq<BlockUndo>, ghost node: Runs.Node) returns (after: seq<BlockUndo>)
    requires view.Valid() && view.Content() == node.state && Linked(node) && UndosOf(undos, node.trail)
    requires Fits(node.state, [step]) && (step.FlushView? && view.base.OnDB? ==> view.Once())
    modifies view, view.leafSet, view.kernelMMR, view.outputMMR
    modifies view.base.Obj(), view.base.GetLeafSet().Obj(), view.base.GetKernelMMR().Own(), view.base.GetOutputPMMR().Own()
    ensures view.Valid() && view.Content() == Next(node, step).state && UndosOf(after, Next(node, step).trail)
    ensures view.base.OnDB? && old(view.Once()) && Unique(Next(node, step).state.coins) ==> view.Once()
    ensures step.FlushView? && old(view.header).Some? ==> view.base.Content() == view.Content()
  {
    hide *;
    after := undos;
    match step {
      case Connect(block, sums) =>
        ConnectTaken(node, block, sums, undos);
        assert allocated(CachedView(view).Repr());
        var distinct := HasNoDuplicates(block.body.inputs);
        if distinct {
          var r := ConnectBlock(block, sums, view);
          if r.Ok? {
            after := undos + [r.value];
          }
        }
      case DisconnectLast =>
        DisconnectTaken(node, undos);
        if undos != [] {
          var ok := DisconnectBlock(undos[|undos| - 1], view);
          if ok {
            after := undos[..|undos| - 1];
          }
        }
      case FlushView =>
        FlushTaken(node);
        FlushCache(view);
    }
  }

  lemma FlushTaken(node: Runs.Node)
    requires Linked(node)
    ensures Next(node, FlushView) == node
  {
  }

  /**
    Any series of steps on a view, from whatever well-formed state it stands for: the view ends up standing for the
    final state of the run, and the undo data at hand is that of the blocks on the run's trail.
   */
  method Follow(view: CoinsViewCache, steps: seq<Step>) returns (undos: seq<BlockUndo>)
    requires view.Valid() && WellFormed(view.Content()) && Fits(view.Content(), steps)
    requires Lossless(view, Node(view.Content(), []), steps)
    modifies view, view.leafSet, view.kernelMMR, view.outputMMR
    modifies view.base.Obj(), view.base.GetLeafSet().Obj(), view.base.GetKernelMMR().Own(), view.base.GetOutputPMMR().Own()
    ensures view.Valid()
    ensures var node := Run(Node(old(view.Content()), []), steps);
      view.Content() == node.state && UndosOf(undos, node.trail)
  {
    ghost var start := Node(view.Content(), []);
    ghost var careful := view.base.OnDB? && FlushView in steps;
    assert Linked(start) && (careful ==> view.Once() && AllUnique(start, steps));
    hide *;
    ghost var node := start;
    undos := [];
    NoUndos();
    var i := 0;
    assert steps[0..] == steps;
    while i < |steps|
      invariant 0 <= i <= |steps| && view.Valid()
      invariant view.Content() == node.state && Linked(node) && UndosOf(undos, node.trail)
      invariant Fits(node.state, steps[i..]) && Run(start, steps) == Run(node, steps[i..])
      invariant careful ==> view.Once() && AllUnique(node, steps[i..])
    {
      assert steps[i..][0] == steps[i] && steps[i..][1..] == steps[i + 1..];
      RunStep(node, steps[i..]);
      if careful { UniqueStep(node, steps[i..]); }
      undos := Take(view, steps[i], undos, node);
      NextLinked(node, steps[i]);
      node := Next(node, steps[i]);
      i := i + 1;
    }
    assert steps[i..] == [];
    RunDone(node);
  }

  lemma UniqueStep(node: Runs.Node, steps: seq<Step>)
    requires Linked(node) && steps != [] && AllUnique(node, steps)
    ensures Linked(Next(node, steps[0])) && AllUnique(Next(node, steps[0]), steps[1..])
    ensures Unique(Next(node, steps[0]).state.coins)
  {
    hide Linked, Next, Unique;
    NextLinked(node, steps[0]);
  }

  lemma NoUndos()
    ensures UndosOf([], [])
  {
  }

  lemma RunDone(node: Runs.Node)
    requires Linked(node)
    ensures Run(node, []) == node
  {
  }

  lemma RunStep(node: Runs.Node, steps: seq<Step>)
    requires Linked(node) && steps != [] && Fits(node.state, steps)
    ensures Run(node, steps) == Run(Next(node, steps[0]), steps[1..])
    ensures Fits(node.state, [steps[0]]) && Fits(Next(node, steps[0]).state, steps[1..])
  {
    hide Linked, Next, Run;
    RunUnfolds(node, steps);
    StepSizes(node, steps[0]);
    OneStep(steps[0]);
  }

  lemma RunUnfolds(node: Runs.Node, steps: seq<Step>)
    requires Linked(node) && steps != []
    ensures Run(node, steps) == Run(Next(node, steps[0]), steps[1..])
  {
    hide Linked, Next;
  }

  lemma OneStep(step: Step)
    ensures KernelsIn([step]) == if step.Connect? then |step.block.body.kernels| else 0
    ensures OutputsIn([step]) == if step.Connect? then |step.block.body.outputs| else 0
  {
    assert [step][1..] == [];
  }
}
