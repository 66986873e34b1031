/** Connecting, disconnecting and building blocks on the flat chain state. */
module Blocks {
  import opened Merkle
  import opened LeafSets
  import opened Chain
  import opened Wrappers

  /**
    CoinsViewCache::ApplyBlock. Whether the kernel sums of the block balance is decided by the caller
    and passed in.
   */
  ghost function Apply(st: State, block: Block, sumsBalance: bool): (r: Result<(State, BlockUndo)>)
    requires TotalCoins(st.coins)
    ensures r.Ok? ==> TotalCoins(r.value.0.coins)
  {
    var st0 := st.(header := Some(block.header));
    if !sumsBalance then Err(BlockSums)
    else
      var st1 := st0.(kernels := st.kernels + block.body.kernels);
      match SpendAll(st1, block.body.inputs)
      case Err(e) => Err(e)
      case Ok((st2, spent)) =>
        var st3 := AddAll(st2, block.header.height, block.body.outputs);
        if !Matches(block.header, st3) then Err(MmrMismatch)
        else Ok((st3, BlockUndo(st.header, spent, Commitments(block.body.outputs))))
  }

  ghost function FirstN<T>(s: seq<T>, n: nat): seq<T> {
    if n <= |s| then s[..n] else s
  }

  ghost function UndoneCoins(coins: Coins, undo: BlockUndo): (r: Coins)
    requires TotalCoins(coins)
    ensures TotalCoins(r)
  {
    PushAll(PopAll(coins, undo.coinsAdded), undo.coinsSpent)
  }

  /** Every commitment has as many coins as it is spent. */
  ghost predicate Covers(coins: Coins, spends: seq<Commitment>)
    requires TotalCoins(coins)
  {
    forall c: Commitment :: multiset(spends)[c] <= |coins[c]|
  }

  /** Every coin the undo data removes is there. */
  ghost predicate UndoFits(coins: Coins, undo: BlockUndo)
    requires TotalCoins(coins)
  {
    Covers(coins, undo.coinsAdded)
  }

  /** CoinsViewCache::UndoBlock on the cache's own state. */
  ghost function Undo(st: State, undo: BlockUndo): (r: Result<State>)
    requires TotalCoins(st.coins)
    ensures r.Ok? ==> TotalCoins(r.value.coins)
  {
    var coins := UndoneCoins(st.coins, undo);
    match undo.previous
    case None => Ok(State(coins, RewoundLeaves(st.unspent, [], 0), 0, FirstN(st.kernels, 0), FirstN(st.outputs, 0), None))
    case Some(h) =>
      var after := State(coins, RewoundLeaves(st.unspent, LeavesOfCoins(undo.coinsSpent), h.numTXOs), h.numTXOs,
                         FirstN(st.kernels, h.numKernels), FirstN(st.outputs, h.numTXOs), Some(h));
      if Matches(h, after) then Ok(after) else Err(MmrMismatch)
  }

  /**
    Node::DisconnectBlock on the view below: the cache's state, except that without a previous header
    CoinsViewCache::Flush returns before it writes anything.
   */
  ghost function Disconnect(st: State, undo: BlockUndo): (r: Result<State>)
    requires TotalCoins(st.coins)
    ensures r.Ok? ==> TotalCoins(r.value.coins)
  {
    if Undo(st, undo).Ok? && undo.previous == None then Ok(st) else Undo(st, undo)
  }

  // ---------- applying a block ----------

  /** The intermediate states of a successful Apply. */
  lemma ApplySteps(st: State, block: Block, sums: bool) returns (st1: State, st2: State, spent: seq<Coin>)
    requires Consistent(st) && Apply(st, block, sums).Ok?
    ensures st1 == st.(header := Some(block.header), kernels := st.kernels + block.body.kernels)
    ensures Consistent(st1) && SpendAll(st1, block.body.inputs) == Ok((st2, spent))
    ensures Consistent(st2) && st2 == st1.(coins := st2.coins, unspent := st2.unspent)
    ensures Apply(st, block, sums).value.0 == AddAll(st2, block.header.height, block.body.outputs)
    ensures Apply(st, block, sums).value.1 == BlockUndo(st.header, spent, Commitments(block.body.outputs))
    ensures Matches(block.header, Apply(st, block, sums).value.0)
  {
    st1 := st.(header := Some(block.header), kernels := st.kernels + block.body.kernels);
    assert Consistent(st1);
    SpendAllShape(st1, block.body.inputs);
    st2 := SpendAll(st1, block.body.inputs).value.0;
    spent := SpendAll(st1, block.body.inputs).value.1;
  }

  /** A connected block leaves a well-formed state whose best header is the block's. */
  lemma ApplyWellFormed(st: State, block: Block, sums: bool)
    requires WellFormed(st) && Apply(st, block, sums).Ok?
    ensures WellFormed(Apply(st, block, sums).value.0)
    ensures Apply(st, block, sums).value.0.header == Some(block.header)
    ensures Apply(st, block, sums).value.1.previous == st.header
  {
    hide Matches, Consistent;
    var st1, st2, spent := ApplySteps(st, block, sums);
    AddAllShape(st2, block.header.height, block.body.outputs);
  }

  /** The size of everything after a block: kernels and outputs only grow, and keep their old prefix. */
  lemma ApplyGrows(st: State, block: Block, sums: bool)
    requires Consistent(st) && Apply(st, block, sums).Ok?
    ensures var after := Apply(st, block, sums).value.0;
      && after.kernels == st.kernels + block.body.kernels
      && after.outputs == st.outputs + Ids(block.body.outputs)
      && after.next == |after.outputs|
      && (forall i: nat :: i in after.unspent <==>
           (i in st.unspent && i !in LeavesOfCoins(Apply(st, block, sums).value.1.coinsSpent)) ||
           |st.outputs| <= i < |after.outputs|)
      && (forall j :: 0 <= j < |Apply(st, block, sums).value.1.coinsSpent| ==>
           Apply(st, block, sums).value.1.coinsSpent[j].leafIdx in st.unspent)
  {
    hide Matches, Consistent;
    var st1, st2, spent := ApplySteps(st, block, sums);
    SpendAllShape(st1, block.body.inputs);
    AddAllShape(st2, block.header.height, block.body.outputs);
  }

  /**
    What a block leaves of a stack: all but the coins that its inputs take from the top, and then the coins of its
    outputs, which have the block's height and the next leaves, in order.
   */
  lemma CreatedCoins(st: State, block: Block, sums: bool, c: Commitment)
    requires Consistent(st) && Apply(st, block, sums).Ok?
    ensures multiset(block.body.inputs)[c] <= |st.coins[c]|
    ensures var stack := Apply(st, block, sums).value.0.coins[c]; var kept := |st.coins[c]| - multiset(block.body.inputs)[c];
      && |stack| == kept + multiset(Commitments(block.body.outputs))[c]
      && stack[..kept] == st.coins[c][..kept]
      && (forall k :: kept <= k < |stack| ==>
           && |st.outputs| <= stack[k].leafIdx < |st.outputs| + |block.body.outputs|
           && stack[k] == Coin(block.header.height, stack[k].leafIdx, block.body.outputs[stack[k].leafIdx - |st.outputs|]))
      && (forall k, l :: kept <= k < l < |stack| ==> stack[k].leafIdx < stack[l].leafIdx)
  {
    hide Matches, Consistent, Apply, AddAll, SpendAll, OfCommitment, NewCoins;
    var st1, st2, spent := ApplySteps(st, block, sums);
    SpendAllStacks(st1, block.body.inputs, c);
    AddAllStack(st2, block.header.height, block.body.outputs, c);
    var created := OfCommitmentNew(|st.outputs|, block.header.height, block.body.outputs, c);
    assert forall k :: 0 <= k < |created| ==> IsNew(created[k], |st.outputs|, block.header.height, block.body.outputs);
  }

  /** The coin of one of the outputs, the first of which gets the given leaf. */
  ghost predicate IsNew(coin: Coin, first: nat, height: nat, outputs: seq<Output>) {
    && first <= coin.leafIdx < first + |outputs|
    && coin == Coin(height, coin.leafIdx, outputs[coin.leafIdx - first])
  }

  lemma {:induction false} OfCommitmentNew(first: nat, height: nat, outputs: seq<Output>, c: Commitment) returns (coins: seq<Coin>)
    ensures coins == OfCommitment(NewCoins(first, height, outputs), c)
    ensures forall k :: 0 <= k < |coins| ==> IsNew(coins[k], first, height, outputs)
    ensures forall k, l :: 0 <= k < l < |coins| ==> coins[k].leafIdx < coins[l].leafIdx
    decreases |outputs|
  {
    coins := [];
    if outputs != [] {
      var rest := OfCommitmentNew(first + 1, height, outputs[1..], c);
      var all, tail := NewCoins(first, height, outputs), NewCoins(first + 1, height, outputs[1..]);
      assert all[1..] == tail;
      var own: seq<Coin> := if all[0].output.commitment == c then [all[0]] else [];
      coins := own + rest;
      forall k | 0 <= k < |coins| ensures IsNew(coins[k], first, height, outputs) {
        if k >= |own| { assert IsNew(rest[k - |own|], first + 1, height, outputs[1..]); }
      }
      forall k, l | 0 <= k < l < |coins| ensures coins[k].leafIdx < coins[l].leafIdx {
        assert IsNew(rest[l - |own|], first + 1, height, outputs[1..]);
      }
    }
  }

  /** A spent leaf is never unspent again by connecting a block. */
  lemma SpentStaysSpent(st: State, block: Block, sums: bool, i: nat)
    requires Consistent(st) && Apply(st, block, sums).Ok?
    requires i < |st.outputs| && i !in st.unspent
    ensures i < |Apply(st, block, sums).value.0.outputs| && i !in Apply(st, block, sums).value.0.unspent
  {
    ApplyGrows(st, block, sums);
  }

  /** Without duplicate or missing inputs, a block is rejected only by its sums or its header. */
  lemma ApplyOkIff(st: State, block: Block, sums: bool)
    requires Consistent(st)
    ensures Apply(st, block, sums) == Err(UtxoMissing) <==>
              sums && exists c: Commitment :: multiset(block.body.inputs)[c] > |st.coins[c]|
  {
    var st1 := st.(header := Some(block.header), kernels := st.kernels + block.body.kernels);
    assert Consistent(st1);
    SpendAllOkIff(st1, block.body.inputs);
  }

  // ---------- undoing a block ----------

  /** The stack of one commitment after applying and undoing. */
  lemma UndoneStack(st: State, block: Block, sums: bool, c: Commitment)
    requires Consistent(st) && Apply(st, block, sums).Ok?
    ensures var (after, undo) := Apply(st, block, sums).value;
      var m := multiset(block.body.inputs)[c];
      && m <= |st.coins[c]|
      && multiset(undo.coinsAdded)[c] <= |after.coins[c]|
      && UndoneCoins(after.coins, undo)[c]
           == st.coins[c][..|st.coins[c]| - m] + OfCommitment(undo.coinsSpent, c)
  {
    hide Matches, Consistent;
    var st1, st2, spent := ApplySteps(st, block, sums);
    var (after, undo) := Apply(st, block, sums).value;
    SpendAllStacks(st1, block.body.inputs, c);
    AddAllStack(st2, block.header.height, block.body.outputs, c);
    PopAllStacks(after.coins, undo.coinsAdded, c);
    PushAllStacks(PopAll(after.coins, undo.coinsAdded), undo.coinsSpent, c);
    assert PopAll(after.coins, undo.coinsAdded)[c] == st2.coins[c];
  }

  /** A stack is restored when at most one of its coins was spent. */
  lemma StackRestored(st: State, block: Block, sums: bool, c: Commitment)
    requires Consistent(st) && Apply(st, block, sums).Ok?
    requires multiset(block.body.inputs)[c] <= 1
    ensures var (after, undo) := Apply(st, block, sums).value;
      UndoneCoins(after.coins, undo)[c] == st.coins[c]
  {
    hide Matches, Consistent, Apply, UndoneCoins, SpendAll, AddAll, OfCommitment;
    var st1, st2, spent := ApplySteps(st, block, sums);
    UndoneStack(st, block, sums, c);
    SpentCoins(st1, block.body.inputs, c);
    OneOnTop(st.coins[c], OfCommitment(spent, c));
  }

  lemma OneOnTop(stack: seq<Coin>, taken: seq<Coin>)
    requires |taken| <= 1 && |taken| <= |stack|
    requires taken != [] ==> taken[0] == stack[|stack| - 1]
    ensures stack[..|stack| - |taken|] + taken == stack
  {
  }

  /** A stack that was spent twice comes back in another order. */
  lemma StackReordered(st: State, block: Block, sums: bool, c: Commitment)
    requires Consistent(st) && Apply(st, block, sums).Ok?
    requires multiset(block.body.inputs)[c] >= 2
    ensures var (after, undo) := Apply(st, block, sums).value;
      UndoneCoins(after.coins, undo)[c] != st.coins[c]
  {
    hide Matches, Consistent, Apply, UndoneCoins, SpendAll, AddAll, OfCommitment;
    var st1, st2, spent := ApplySteps(st, block, sums);
    UndoneStack(st, block, sums, c);
    SpentCoins(st1, block.body.inputs, c);
    var stack := st.coins[c];
    DistinctInStack(st, c, |stack| - multiset(block.body.inputs)[c], |stack| - 1);
    var (after, undo) := Apply(st, block, sums).value;
    assert UndoneCoins(after.coins, undo)[c][|stack| - multiset(block.body.inputs)[c]] == stack[|stack| - 1];
  }

  /** No coin is in a stack twice. */
  lemma DistinctInStack(st: State, c: Commitment, k: nat, l: nat)
    requires Consistent(st) && k < l < |st.coins[c]|
    ensures st.coins[c][k] != st.coins[c][l]
  {
    assert LiveAt(st.coins, c, k, st.coins[c][k].leafIdx);
    assert LiveAt(st.coins, c, l, st.coins[c][l].leafIdx);
  }

  /** All the coins are restored exactly when no commitment is spent twice. */
  lemma CoinsRestoredIff(st: State, block: Block, sums: bool)
    requires Consistent(st) && Apply(st, block, sums).Ok?
    ensures var (after, undo) := Apply(st, block, sums).value;
      UndoneCoins(after.coins, undo) == st.coins <==> Distinct(block.body.inputs)
  {
    hide Consistent, Matches;
    var (after, undo) := Apply(st, block, sums).value;
    if Distinct(block.body.inputs) {
      forall c: Commitment ensures UndoneCoins(after.coins, undo)[c] == st.coins[c] {
        DistinctCount(block.body.inputs, c);
        StackRestored(st, block, sums, c);
      }
    } else {
      var c := RepeatedCount(block.body.inputs);
      StackReordered(st, block, sums, c);
    }
  }

  /** Rewinding the leaf set undoes the block's spends and additions. */
  lemma LeavesRestored(st: State, block: Block, sums: bool)
    requires Consistent(st) && Apply(st, block, sums).Ok?
    ensures var (after, undo) := Apply(st, block, sums).value;
      RewoundLeaves(after.unspent, LeavesOfCoins(undo.coinsSpent), |st.outputs|) == st.unspent
  {
    ApplyGrows(st, block, sums);
  }

  /**
    Undoing a block just applied to a state with a best header always passes its final validation, gives back
    everything but the order of coins, and gives back the state itself exactly when the inputs are distinct.
   */
  lemma UndoAfterApply(st: State, block: Block, sums: bool)
    requires WellFormed(st) && st.header.Some? && Apply(st, block, sums).Ok?
    ensures var (after, undo) := Apply(st, block, sums).value;
      && UndoFits(after.coins, undo)
      && Undo(after, undo).Ok?
      && Undo(after, undo).value.(coins := st.coins) == st
      && (Undo(after, undo) == Ok(st) <==> Distinct(block.body.inputs))
  {
    hide LeafsetRoot, MmrRoot;
    var (after, undo) := Apply(st, block, sums).value;
    forall c: Commitment ensures multiset(undo.coinsAdded)[c] <= |after.coins[c]| { UndoneStack(st, block, sums, c); }
    ApplyGrows(st, block, sums);
    LeavesRestored(st, block, sums);
    CoinsRestoredIff(st, block, sums);
  }

  /** Undoing the first block passes too, and empties the cache. */
  lemma UndoFirst(st: State, block: Block, sums: bool)
    requires WellFormed(st) && st.header.None? && Apply(st, block, sums).Ok?
    ensures var (after, undo) := Apply(st, block, sums).value;
      && UndoFits(after.coins, undo)
      && undo.previous == None
      && Undo(after, undo) == Ok(st)
  {
    hide LeafsetRoot, MmrRoot;
    var (after, undo) := Apply(st, block, sums).value;
    forall c: Commitment ensures multiset(undo.coinsAdded)[c] <= |after.coins[c]| { UndoneStack(st, block, sums, c); }
    if !Distinct(block.body.inputs) {
      var c := RepeatedCount(block.body.inputs);
      UndoneStack(st, block, sums, c);
      assert false;
    }
    CoinsRestoredIff(st, block, sums);
    assert RewoundLeaves(after.unspent, [], 0) == iset{};
  }

  /**
    Disconnecting the block just connected restores the view exactly when the block's inputs are distinct
    and the view had a best header before.
   */
  lemma DisconnectRestoresIff(st: State, block: Block, sums: bool)
    requires WellFormed(st) && Apply(st, block, sums).Ok?
    ensures var (after, undo) := Apply(st, block, sums).value;
      && Disconnect(after, undo).Ok?
      && (Disconnect(after, undo) == Ok(st) <==> Distinct(block.body.inputs) && st.header.Some?)
  {
    hide Matches, Consistent;
    ApplyWellFormed(st, block, sums);
    if st.header.Some? {
      UndoAfterApply(st, block, sums);
    } else {
      UndoFirst(st, block, sums);
    }
  }

  // ---------- what a header commits to ----------

  /** Two well-formed states with the same best header have the same kernels, outputs and unspent leaves. */
  lemma HeaderBinding(a: State, b: State)
    requires WellFormed(a) && WellFormed(b) && a.header == b.header
    ensures a.kernels == b.kernels && a.outputs == b.outputs && a.unspent == b.unspent && a.next == b.next
  {
    hide MmrRoot, LeafsetRoot;
    if a.header.Some? {
      RootBinding(a.kernels, b.kernels);
      RootBinding(a.outputs, b.outputs);
      LeafsetRootBinding(a.unspent, b.unspent, a.next);
    }
  }

  /** ValidateMMRs accepts one header for two states only if they have the same kernels, outputs and leaf set. */
  lemma MatchesBinding(h: Header, a: State, b: State)
    requires Consistent(a) && Consistent(b) && Matches(h, a) && Matches(h, b)
    ensures a.kernels == b.kernels && a.outputs == b.outputs && a.unspent == b.unspent && a.next == b.next
  {
    hide MmrRoot, LeafsetRoot;
    RootBinding(a.kernels, b.kernels);
    RootBinding(a.outputs, b.outputs);
    LeafsetRootBinding(a.unspent, b.unspent, a.next);
  }

  // ---------- building a block ----------

  /** The header that commits to the state. */
  ghost function HeaderFor(height: nat, st: State): (header: Header)
    ensures Matches(header, st) && header.height == height
  {
    Header(height, MmrRoot(st.outputs), MmrRoot(st.kernels), LeafsetRoot(st.unspent, st.next), |st.outputs|, |st.kernels|)
  }

  /**
    CoinsViewCache::BuildNextBlock: the block, and the state of the cache that built it. Unlike Apply, it adds the
    outputs before it spends the inputs.
   */
  ghost function Build(st: State, height: nat, body: Body): (r: Result<(State, Block)>)
    requires TotalCoins(st.coins)
    ensures r.Ok? ==> TotalCoins(r.value.0.coins)
  {
    var st1 := st.(kernels := st.kernels + body.kernels);
    var st2 := AddAll(st1, height, body.outputs);
    match SpendAll(st2, body.inputs)
    case Err(e) => Err(e)
    case Ok((st3, spent)) => Ok((st3, Block(HeaderFor(height, st3), body)))
  }

  /** No commitment is both spent and created. */
  ghost predicate NoCutThrough(body: Body) {
    forall c :: c in body.inputs ==> c !in Commitments(body.outputs)
  }

  /** Spending takes the same coins from states whose stacks agree on the inputs. */
  lemma {:induction false} SameCoinsSpent(a: State, b: State, inputs: seq<Commitment>)
    requires Consistent(a) && Consistent(b) && SpendAll(a, inputs).Ok? && SpendAll(b, inputs).Ok?
    requires forall c :: c in inputs ==> a.coins[c] == b.coins[c]
    ensures SpendAll(a, inputs).value.1 == SpendAll(b, inputs).value.1
    decreases |inputs|
  {
    hide Consistent;
    if inputs != [] {
      var c := inputs[0];
      SpendConsistent(a, c);
      SpendConsistent(b, c);
      SameCoinsSpent(Spend(a, c).value.0, Spend(b, c).value.0, inputs[1..]);
    }
  }

  /** What a successful Build does, step by step. */
  lemma BuildSteps(st: State, height: nat, body: Body) returns (st1: State, st2: State, st3: State, spent: seq<Coin>)
    requires Consistent(st) && Build(st, height, body).Ok?
    ensures st1 == st.(kernels := st.kernels + body.kernels) && Consistent(st1)
    ensures st2 == AddAll(st1, height, body.outputs) && Consistent(st2)
    ensures SpendAll(st2, body.inputs) == Ok((st3, spent)) && Consistent(st3)
    ensures st2.kernels == st1.kernels && st2.header == st.header && st2.outputs == st.outputs + Ids(body.outputs)
    ensures forall i: nat :: i in st2.unspent <==> i in st.unspent || |st.outputs| <= i < |st2.outputs|
    ensures st3 == st2.(coins := st3.coins, unspent := st3.unspent)
    ensures forall i: nat :: i in st3.unspent <==> i in st2.unspent && i !in LeavesOfCoins(spent)
    ensures Build(st, height, body) == Ok((st3, Block(HeaderFor(height, st3), body)))
  {
    st1 := st.(kernels := st.kernels + body.kernels);
    assert Consistent(st1);
    hide Consistent;
    AddAllShape(st1, height, body.outputs);
    st2 := AddAll(st1, height, body.outputs);
    SpendAllShape(st2, body.inputs);
    st3 := SpendAll(st2, body.inputs).value.0;
    spent := SpendAll(st2, body.inputs).value.1;
  }

  /** Without cut-through, the inputs can also be spent before the outputs are added, and are the same coins. */
  lemma SpendsCommute(a: State, b: State, height: nat, body: Body)
    requires Consistent(a) && Consistent(b) && a == b.(header := a.header)
    requires Consistent(AddAll(b, height, body.outputs)) && NoCutThrough(body)
    requires SpendAll(AddAll(b, height, body.outputs), body.inputs).Ok?
    ensures SpendAll(a, body.inputs).Ok?
    ensures SpendAll(a, body.inputs).value.1 == SpendAll(AddAll(b, height, body.outputs), body.inputs).value.1
  {
    hide Consistent, AddAll, SpendAll;
    var added := AddAll(b, height, body.outputs);
    forall c: Commitment
      ensures multiset(body.inputs)[c] <= |a.coins[c]|
      ensures c in body.inputs ==> a.coins[c] == added.coins[c]
    {
      AddAllStack(b, height, body.outputs, c);
      SpendAllStacks(added, body.inputs, c);
      if c in body.inputs { assert multiset(Commitments(body.outputs))[c] == 0; }
    }
    SpendAllOkIff(a, body.inputs);
    SameCoinsSpent(a, added, body.inputs);
  }

  /** Without cut-through, spending and adding in either order gives the same stack. */
  lemma SameStack(a: State, b: State, height: nat, body: Body, c: Commitment)
    requires Consistent(a) && Consistent(b) && a == b.(header := a.header)
    requires Consistent(AddAll(b, height, body.outputs)) && NoCutThrough(body)
    requires SpendAll(AddAll(b, height, body.outputs), body.inputs).Ok? && SpendAll(a, body.inputs).Ok?
    requires Consistent(SpendAll(a, body.inputs).value.0)
    requires SpendAll(a, body.inputs).value.0.outputs == a.outputs
    ensures AddAll(SpendAll(a, body.inputs).value.0, height, body.outputs).coins[c]
         == SpendAll(AddAll(b, height, body.outputs), body.inputs).value.0.coins[c]
  {
    hide Consistent, AddAll, SpendAll;
    var added := AddAll(b, height, body.outputs);
    AddAllStack(b, height, body.outputs, c);
    SpendAllStacks(added, body.inputs, c);
    SpendAllStacks(a, body.inputs, c);
    AddAllStack(SpendAll(a, body.inputs).value.0, height, body.outputs, c);
    if c in body.inputs {
      assert multiset(Commitments(body.outputs))[c] == 0;
    } else {
      assert multiset(body.inputs)[c] == 0;
      assert added.coins[c][..|added.coins[c]|] == added.coins[c];
    }
  }

  lemma SameCoins(a: State, b: State, height: nat, body: Body)
    requires Consistent(a) && Consistent(b) && a == b.(header := a.header)
    requires Consistent(AddAll(b, height, body.outputs)) && NoCutThrough(body)
    requires SpendAll(AddAll(b, height, body.outputs), body.inputs).Ok? && SpendAll(a, body.inputs).Ok?
    requires Consistent(SpendAll(a, body.inputs).value.0)
    requires SpendAll(a, body.inputs).value.0.outputs == a.outputs
    ensures AddAll(SpendAll(a, body.inputs).value.0, height, body.outputs).coins
         == SpendAll(AddAll(b, height, body.outputs), body.inputs).value.0.coins
  {
    hide Consistent, AddAll, SpendAll, NoCutThrough;
    forall c: Commitment
      ensures AddAll(SpendAll(a, body.inputs).value.0, height, body.outputs).coins[c]
           == SpendAll(AddAll(b, height, body.outputs), body.inputs).value.0.coins[c]
    {
      SameStack(a, b, height, body, c);
    }
  }

  /** Removing old leaves commutes with adding new ones. */
  lemma SameUnspent(before: iset<nat>, n: nat, m: nat, taken: seq<nat>, low: iset<nat>, after: iset<nat>, built: iset<nat>)
    requires AllBelow(before, n) && forall j :: 0 <= j < |taken| ==> taken[j] in before
    requires forall i: nat :: i in low <==> i in before && i !in taken
    requires forall i: nat :: i in after <==> i in low || n <= i < m
    requires forall i: nat :: i in built <==> (i in before || n <= i < m) && i !in taken
    ensures after == built
  {
  }

  /** Apply from its steps. */
  lemma AppliedIs(st: State, block: Block, low: State, spent: seq<Coin>)
    requires Consistent(st)
    requires SpendAll(st.(header := Some(block.header), kernels := st.kernels + block.body.kernels), block.body.inputs)
          == Ok((low, spent))
    requires Matches(block.header, AddAll(low, block.header.height, block.body.outputs))
    ensures Apply(st, block, true)
         == Ok((AddAll(low, block.header.height, block.body.outputs),
                BlockUndo(st.header, spent, Commitments(block.body.outputs))))
  {
    hide Consistent, AddAll, SpendAll, MmrRoot, LeafsetRoot;
  }

  /** A built block without cut-through is accepted, and gives the state it was built in. */
  lemma BuiltBlockApplies(st: State, height: nat, body: Body)
    requires Consistent(st) && Build(st, height, body).Ok? && NoCutThrough(body)
    ensures var (built, block) := Build(st, height, body).value;
      && Apply(st, block, true).Ok?
      && Apply(st, block, true).value.0 == built.(header := Some(block.header))
  {
    var b, added, built, spent := BuildSteps(st, height, body);
    var header := HeaderFor(height, built);
    var a := b.(header := Some(header));
    assert Consistent(a);
    hide Consistent, NoCutThrough, AddAll, SpendAll, MmrRoot, LeafsetRoot, HeaderFor, Apply, Build;
    SpendsCommute(a, b, height, body);
    SpendAllShape(a, body.inputs);
    var low := SpendAll(a, body.inputs).value.0;
    AddAllShape(low, height, body.outputs);
    var after := AddAll(low, height, body.outputs);
    SameCoins(a, b, height, body);
    ConsistentSize(a);
    SameUnspent(a.unspent, |a.outputs|, |after.outputs|, LeavesOfCoins(spent), low.unspent, after.unspent, built.unspent);
    ConsistentSize(built);
    AppliedIs(st, Block(header, body), low, spent);
  }

  lemma {:induction false} OfCommitmentIn(coins: seq<Coin>, c: Commitment)
    ensures forall x :: x in OfCommitment(coins, c) ==> x in coins
  {
    if coins != [] {
      OfCommitmentIn(coins[1..], c);
      assert coins == [coins[0]] + coins[1..];
    }
  }

  /** A coin created and spent in one built block is spent in the state it was built in. */
  lemma CutThroughSpent(st: State, height: nat, body: Body, c: Commitment) returns (i: nat)
    requires Consistent(st) && Build(st, height, body).Ok?
    requires c in body.inputs && c in Commitments(body.outputs)
    ensures var built := Build(st, height, body).value.0; |st.outputs| <= i < |built.outputs| && i !in built.unspent
  {
    var b, added, built, spent := BuildSteps(st, height, body);
    hide Consistent, AddAll, SpendAll, Build, HeaderFor, OfCommitment;
    AddAllStack(b, height, body.outputs, c);
    assert multiset(Commitments(body.outputs))[c] > 0;
    assert multiset(body.inputs)[c] > 0;
    SpentCoins(added, body.inputs, c);
    var coin := OfCommitment(spent, c)[0];
    OfCommitmentIn(spent, c);
    assert coin in spent;
    i := coin.leafIdx;
    var j :| 0 <= j < |spent| && spent[j] == coin;
    assert LeavesOfCoins(spent)[j] == i;
    SpendAllShape(added, body.inputs);
    ConsistentSize(added);
  }

  /** A block that spends what it creates is built, and then rejected by its leaf set root. */
  lemma CutThroughRejected(st: State, height: nat, body: Body)
    requires Consistent(st) && Build(st, height, body).Ok? && !NoCutThrough(body)
    ensures Apply(st, Build(st, height, body).value.1, true).Err?
  {
    var (built, block) := Build(st, height, body).value;
    var c :| c in body.inputs && c in Commitments(body.outputs);
    var i := CutThroughSpent(st, height, body, c);
    var b, added, built', spent := BuildSteps(st, height, body);
    hide Consistent, AddAll, SpendAll, Build, MmrRoot, LeafsetRoot, Apply;
    if Apply(st, block, true).Ok? {
      var after := Apply(st, block, true).value.0;
      var st1, st2, coins := ApplySteps(st, block, true);
      AddAllShape(st2, block.header.height, block.body.outputs);
      ApplyGrows(st, block, true);
      MatchesBinding(block.header, after, built);
      assert false;
    }
  }

  /**
    A built block is accepted on the state it was built on exactly when it spends nothing it creates, and then
    it gives the state it was built in.
   */
  lemma BuiltBlockAcceptedIff(st: State, height: nat, body: Body)
    requires Consistent(st) && Build(st, height, body).Ok?
    ensures var (built, block) := Build(st, height, body).value;
      && (Apply(st, block, true).Ok? <==> NoCutThrough(body))
      && (NoCutThrough(body) ==> Apply(st, block, true).value.0 == built.(header := Some(block.header)))
  {
    hide Consistent, Apply, Build, NoCutThrough;
    if NoCutThrough(body) {
      BuiltBlockApplies(st, height, body);
    } else {
      CutThroughRejected(st, height, body);
    }
  }

  ghost predicate OnChain(st: State, inputs: seq<Commitment>)
    requires TotalCoins(st.coins)
  {
    forall c :: c in inputs ==> st.coins[c] != []
  }

  ghost predicate OffChain(st: State, outputs: seq<Output>)
    requires TotalCoins(st.coins)
  {
    forall o :: o in outputs ==> st.coins[o.commitment] == []
  }

  /** The chain checks of BlockBuilder::AddTransaction: the inputs are on chain and the outputs are not. */
  ghost predicate InputsOnChain(st: State, body: Body)
    requires TotalCoins(st.coins)
  {
    OnChain(st, body.inputs) && OffChain(st, body.outputs)
  }

  /** A block that passes those checks is built exactly when no commitment is spent more often than it has coins. */
  lemma CheckedBuildOkIff(st: State, height: nat, body: Body)
    requires Consistent(st) && InputsOnChain(st, body)
    ensures NoCutThrough(body)
    ensures Build(st, height, body).Ok? <==> Covers(st.coins, body.inputs)
  {
    var b := st.(kernels := st.kernels + body.kernels);
    assert Consistent(b);
    forall c | c in body.inputs ensures c !in Commitments(body.outputs) {
      forall j | 0 <= j < |body.outputs| ensures Commitments(body.outputs)[j] != c {
        assert body.outputs[j] in body.outputs;
      }
    }
    hide Consistent, AddAll, SpendAll;
    AddAllShape(b, height, body.outputs);
    SpendAllOkIff(AddAll(b, height, body.outputs), body.inputs);
    forall c: Commitment
      ensures multiset(body.inputs)[c] <= |st.coins[c]| <==>
              multiset(body.inputs)[c] <= |AddAll(b, height, body.outputs).coins[c]|
    {
      AddAllStack(b, height, body.outputs, c);
      if c in body.inputs { assert multiset(Commitments(body.outputs))[c] == 0; }
    }
  }

  /**
    A block that passes those checks, and asks for no more coins than there are, is built and accepted: what
    BlockBuilder builds can be connected.
   */
  lemma CheckedBlockAccepted(st: State, height: nat, body: Body)
    requires Consistent(st) && InputsOnChain(st, body) && Covers(st.coins, body.inputs)
    ensures Build(st, height, body).Ok? && Apply(st, Build(st, height, body).value.1, true).Ok?
  {
    hide Consistent, Build, Apply, InputsOnChain;
    CheckedBuildOkIff(st, height, body);
    BuiltBlockAcceptedIff(st, height, body);
  }

  /** Counting what is there, what is spent and what is added, every commitment is left with at most one coin. */
  ghost predicate StaysUnique(coins: Coins, body: Body)
    requires TotalCoins(coins)
  {
    forall c: Commitment :: multiset(Commitments(body.outputs))[c] + |coins[c]| <= 1 + multiset(body.inputs)[c]
  }

  /** What ApplyBlock does not check: commitments stay unique exactly when these counts allow it. */
  lemma UniqueIff(st: State, block: Block, sums: bool)
    requires Consistent(st) && Apply(st, block, sums).Ok?
    ensures Unique(Apply(st, block, sums).value.0.coins) <==> StaysUnique(st.coins, block.body)
  {
    hide Consistent, Matches;
    var st1, st2, spent := ApplySteps(st, block, sums);
    var after := Apply(st, block, sums).value.0;
    hide Apply, AddAll, SpendAll;
    forall c: Commitment
      ensures |after.coins[c]| == |st.coins[c]| - multiset(block.body.inputs)[c] + multiset(Commitments(block.body.outputs))[c]
    {
      SpendAllStacks(st1, block.body.inputs, c);
      AddAllStack(st2, block.header.height, block.body.outputs, c);
    }
  }

  /** An output is accepted even when its commitment already has a live coin. */
  lemma DuplicateOutputAccepted(st: State, height: nat, output: Output, kernels: seq<Bytes>)
    requires Consistent(st) && st.coins[output.commitment] != []
    ensures Build(st, height, Body([], [output], kernels)).Ok?
    ensures var block := Build(st, height, Body([], [output], kernels)).value.1;
      && Apply(st, block, true).Ok?
      && |Apply(st, block, true).value.0.coins[output.commitment]| >= 2
  {
    var body := Body([], [output], kernels);
    assert SpendAll(AddAll(st.(kernels := st.kernels + body.kernels), height, body.outputs), body.inputs).Ok?;
    BuiltBlockAcceptedIff(st, height, body);
    var b, added, built, spent := BuildSteps(st, height, body);
    hide Consistent, AddAll, SpendAll, Build, Apply;
    AddAllStack(b, height, body.outputs, output.commitment);
    SpendAllStacks(added, body.inputs, output.commitment);
    assert Commitments(body.outputs)[0] == output.commitment;
  }
}
