/**
  The flat chain state every stack of coins views stands for, and what connecting, disconnecting and building a
  block do to it. The classes in CoinsView.dfy are proved against these functions.
 */
module Chain {
  import opened Merkle
  import opened LeafSets
  import opened Wrappers

  datatype Error = UtxoMissing | MmrMismatch | BlockSums

  datatype Result<+T> = Ok(value: T) | Err(error: Error)

  type Commitment = nat

  datatype Output = Output(commitment: Commitment, id: Bytes)

  /** UTXO: an output with the height of its block and its leaf in the output MMR. */
  datatype Coin = Coin(height: nat, leafIdx: nat, output: Output)

  datatype Header = Header(
    height: nat, outputRoot: Hash, kernelRoot: Hash, leafsetRoot: Hash, numTXOs: nat, numKernels: nat)

  datatype Body = Body(inputs: seq<Commitment>, outputs: seq<Output>, kernels: seq<Bytes>)

  datatype Block = Block(header: Header, body: Body)

  datatype BlockUndo = BlockUndo(previous: Option<Header>, coinsSpent: seq<Coin>, coinsAdded: seq<Commitment>)

  /** The live coins of every commitment, oldest first. */
  type Coins = imap<Commitment, seq<Coin>>

  datatype State = State(
    coins: Coins, unspent: iset<nat>, next: nat, kernels: seq<Bytes>, outputs: seq<Bytes>, header: Option<Header>)

  // ---------- stacks of coins ----------

  ghost predicate TotalCoins(coins: Coins) {
    forall c: Commitment :: c in coins
  }

  function Pop(stack: seq<Coin>): seq<Coin> {
    if stack == [] then [] else stack[..|stack| - 1]
  }

  ghost function PopAll(coins: Coins, spends: seq<Commitment>): (r: Coins)
    requires TotalCoins(coins)
    ensures TotalCoins(r)
  {
    if spends == [] then coins
    else PopAll(coins[spends[0] := Pop(coins[spends[0]])], spends[1..])
  }

  ghost function PushAll(coins: Coins, added: seq<Coin>): (r: Coins)
    requires TotalCoins(coins)
    ensures TotalCoins(r)
  {
    if added == [] then coins
    else
      var c := added[0].output.commitment;
      PushAll(coins[c := coins[c] + [added[0]]], added[1..])
  }

  /** The coins of one commitment, in order. */
  ghost function OfCommitment(coins: seq<Coin>, c: Commitment): seq<Coin> {
    if coins == [] then []
    else (if coins[0].output.commitment == c then [coins[0]] else []) + OfCommitment(coins[1..], c)
  }

  ghost function Commitments(outputs: seq<Output>): (r: seq<Commitment>)
    ensures |r| == |outputs| && forall j :: 0 <= j < |r| ==> r[j] == outputs[j].commitment
  {
    seq(|outputs|, j requires 0 <= j < |outputs| => outputs[j].commitment)
  }

  ghost predicate Distinct(cs: seq<Commitment>) {
    forall j, k :: 0 <= j < k < |cs| ==> cs[j] != cs[k]
  }

  lemma {:induction false} PushAllStacks(coins: Coins, added: seq<Coin>, c: Commitment)
    requires TotalCoins(coins)
    ensures PushAll(coins, added)[c] == coins[c] + OfCommitment(added, c)
  {
    if added != [] {
      var d := added[0].output.commitment;
      PushAllStacks(coins[d := coins[d] + [added[0]]], added[1..], c);
    }
  }

  lemma CountSplit(cs: seq<Commitment>, c: Commitment)
    requires cs != []
    ensures multiset(cs)[c] == (if cs[0] == c then 1 else 0) + multiset(cs[1..])[c]
  {
    assert cs == [cs[0]] + cs[1..];
  }

  lemma {:induction false} PopAllStacks(coins: Coins, spends: seq<Commitment>, c: Commitment)
    requires TotalCoins(coins)
    ensures multiset(spends)[c] <= |coins[c]| ==>
              PopAll(coins, spends)[c] == coins[c][..|coins[c]| - multiset(spends)[c]]
  {
    if spends != [] {
      CountSplit(spends, c);
      var d := spends[0];
      PopAllStacks(coins[d := Pop(coins[d])], spends[1..], c);
    }
  }

  lemma {:induction false} OfCommitmentCount(coins: seq<Coin>, cs: seq<Commitment>, c: Commitment)
    requires |coins| == |cs| && forall j :: 0 <= j < |cs| ==> coins[j].output.commitment == cs[j]
    ensures |OfCommitment(coins, c)| == multiset(cs)[c]
  {
    if cs != [] {
      CountSplit(cs, c);
      OfCommitmentCount(coins[1..], cs[1..], c);
    }
  }

  lemma {:induction false} DistinctCount(cs: seq<Commitment>, c: Commitment)
    requires Distinct(cs)
    ensures multiset(cs)[c] <= 1
  {
    if cs != [] {
      CountSplit(cs, c);
      DistinctCount(cs[1..], c);
      if cs[0] == c { assert c !in cs[1..]; }
    }
  }

  lemma RepeatedCount(cs: seq<Commitment>) returns (c: Commitment)
    requires !Distinct(cs)
    ensures multiset(cs)[c] >= 2
  {
    var j, k :| 0 <= j < k < |cs| && cs[j] == cs[k];
    c := cs[j];
    assert cs == cs[..k] + cs[k..];
    assert c in cs[..k] && c in cs[k..];
  }

  // ---------- consistency of the four structures ----------

  /** The k-th coin of commitment c is live and has leaf i. */
  ghost predicate LiveAt(coins: Coins, c: Commitment, k: nat, i: nat)
    requires TotalCoins(coins)
  {
    k < |coins[c]| && coins[c][k].leafIdx == i
  }

  ghost predicate HasLiveCoin(coins: Coins, i: nat)
    requires TotalCoins(coins)
  {
    exists c: Commitment, k: nat :: LiveAt(coins, c, k, i)
  }

  /** A leaf is unspent exactly when one live coin has it, and no two live coins have the same leaf. */
  ghost predicate OneCoinPerLeaf(coins: Coins, unspent: iset<nat>)
    requires TotalCoins(coins)
  {
    && (forall i: nat :: i in unspent <==> HasLiveCoin(coins, i))
    && (forall c: Commitment, k: nat, d: Commitment, l: nat, i: nat ::
          LiveAt(coins, c, k, i) && LiveAt(coins, d, l, i) ==> c == d && k == l)
  }

  /** Every live coin is filed under its commitment, and its leaf carries its output. */
  ghost predicate CoinsFiled(coins: Coins, outputs: seq<Bytes>)
    requires TotalCoins(coins)
  {
    forall c: Commitment, k: nat :: k < |coins[c]| ==>
      && coins[c][k].output.commitment == c
      && coins[c][k].leafIdx < |outputs|
      && outputs[coins[c][k].leafIdx] == coins[c][k].output.id
  }

  ghost predicate Consistent(st: State)
    ensures Consistent(st) ==> TotalCoins(st.coins)
  {
    && TotalCoins(st.coins)
    && st.next == |st.outputs|
    && AllBelow(st.unspent, st.next)
    && CoinsFiled(st.coins, st.outputs)
    && OneCoinPerLeaf(st.coins, st.unspent)
  }

  /** No commitment has more than one live coin. */
  ghost predicate Unique(coins: Coins)
    requires TotalCoins(coins)
  {
    forall c: Commitment :: |coins[c]| <= 1
  }

  /** ICoinsView::ValidateMMRs accepts the header. */
  ghost predicate Matches(header: Header, st: State) {
    && header.kernelRoot == MmrRoot(st.kernels)
    && header.numKernels == |st.kernels|
    && header.outputRoot == MmrRoot(st.outputs)
    && header.numTXOs == |st.outputs|
    && header.leafsetRoot == LeafsetRoot(st.unspent, st.next)
  }

  lemma MatchesIff(header: Header, st: State)
    ensures Matches(header, st) <==>
              && header.kernelRoot == MmrRoot(st.kernels) && header.numKernels == |st.kernels|
              && header.outputRoot == MmrRoot(st.outputs) && header.numTXOs == |st.outputs|
              && header.leafsetRoot == LeafsetRoot(st.unspent, st.next)
  {
  }

  ghost predicate Empty(st: State) {
    && TotalCoins(st.coins) && (forall c: Commitment :: st.coins[c] == [])
    && st.unspent == iset{} && st.next == 0 && st.kernels == [] && st.outputs == []
  }

  /** Consistent, and committed to by the best header; without a header, empty. */
  ghost predicate WellFormed(st: State) {
    && Consistent(st)
    && match st.header
       case Some(h) => Matches(h, st)
       case None => Empty(st)
  }

  ghost function NoCoins(c: Commitment): seq<Coin> {
    []
  }

  /** The state before the first block. */
  ghost function Genesis(): State {
    State(imap c: Commitment | true :: NoCoins(c), iset{}, 0, [], [], None)
  }

  lemma GenesisWellFormed()
    ensures WellFormed(Genesis())
  {
    forall i: nat ensures !HasLiveCoin(Genesis().coins, i) { }
  }

  // ---------- spending and adding ----------

  ghost function Spend(st: State, c: Commitment): (r: Result<(State, Coin)>)
    requires TotalCoins(st.coins)
    ensures r.Ok? ==> TotalCoins(r.value.0.coins)
  {
    var stack := st.coins[c];
    if stack == [] || stack[|stack| - 1].leafIdx !in st.unspent then Err(UtxoMissing)
    else
      var coin := stack[|stack| - 1];
      Ok((st.(coins := st.coins[c := Pop(stack)], unspent := st.unspent - iset{coin.leafIdx}), coin))
  }

  ghost function SpendAll(st: State, inputs: seq<Commitment>): (r: Result<(State, seq<Coin>)>)
    requires TotalCoins(st.coins)
    ensures r.Ok? ==> TotalCoins(r.value.0.coins)
    decreases |inputs|
  {
    if inputs == [] then Ok((st, []))
    else
      match Spend(st, inputs[0])
      case Err(e) => Err(e)
      case Ok((st1, coin)) =>
        match SpendAll(st1, inputs[1..])
        case Err(e) => Err(e)
        case Ok((st2, coins)) => Ok((st2, [coin] + coins))
  }

  ghost function AddOne(st: State, height: nat, output: Output): (r: State)
    requires TotalCoins(st.coins)
    ensures TotalCoins(r.coins)
  {
    var leafIdx := |st.outputs|;
    var c := output.commitment;
    st.(outputs := st.outputs + [output.id],
        unspent := st.unspent + iset{leafIdx},
        next := if leafIdx >= st.next then leafIdx + 1 else st.next,
        coins := st.coins[c := st.coins[c] + [Coin(height, leafIdx, output)]])
  }

  ghost function AddAll(st: State, height: nat, outputs: seq<Output>): (r: State)
    requires TotalCoins(st.coins)
    ensures TotalCoins(r.coins)
    decreases |outputs|
  {
    if outputs == [] then st else AddAll(AddOne(st, height, outputs[0]), height, outputs[1..])
  }

  lemma TopIsLive(st: State, c: Commitment)
    requires Consistent(st) && st.coins[c] != []
    ensures var stack := st.coins[c]; stack[|stack| - 1].leafIdx in st.unspent
  {
    var stack := st.coins[c];
    assert LiveAt(st.coins, c, |stack| - 1, stack[|stack| - 1].leafIdx);
  }

  /** Spending keeps the state consistent, and can fail only because there is no coin. */
  lemma SpendConsistent(st: State, c: Commitment)
    requires Consistent(st)
    ensures Spend(st, c).Ok? <==> st.coins[c] != []
    ensures Spend(st, c).Ok? ==> Consistent(Spend(st, c).value.0)
  {
    if st.coins[c] != [] {
      TopIsLive(st, c);
      var (after, coin) := Spend(st, c).value;
      var top := |st.coins[c]| - 1;
      forall i: nat ensures i in after.unspent <==> HasLiveCoin(after.coins, i) {
        if i in after.unspent {
          var d: Commitment, k: nat :| LiveAt(st.coins, d, k, i);
          assert LiveAt(after.coins, d, k, i);
        }
        if HasLiveCoin(after.coins, i) {
          var d: Commitment, k: nat :| LiveAt(after.coins, d, k, i);
          assert LiveAt(st.coins, d, k, i) && LiveAt(st.coins, c, top, coin.leafIdx);
        }
      }
      forall d: Commitment, k: nat, e: Commitment, l: nat, i: nat |
        LiveAt(after.coins, d, k, i) && LiveAt(after.coins, e, l, i)
        ensures d == e && k == l
      {
        assert LiveAt(st.coins, d, k, i) && LiveAt(st.coins, e, l, i);
      }
    }
  }

  lemma SpendFiled(st: State, c: Commitment)
    requires Consistent(st) && Spend(st, c).Ok?
    ensures Spend(st, c).value.1.output.commitment == c
  {
  }

  lemma AddConsistent(st: State, height: nat, output: Output)
    requires Consistent(st)
    ensures Consistent(AddOne(st, height, output))
  {
    var after := AddOne(st, height, output);
    var c := output.commitment;
    var n := |st.outputs|;
    var top := |st.coins[c]|;
    assert forall d: Commitment, k: nat, i: nat ::
      LiveAt(after.coins, d, k, i) <==> LiveAt(st.coins, d, k, i) || (d == c && k == top && i == n);
    forall i: nat ensures i in after.unspent <==> HasLiveCoin(after.coins, i) {
      if i == n {
        assert LiveAt(after.coins, c, top, n);
      } else if i in st.unspent {
        var d: Commitment, k: nat :| LiveAt(st.coins, d, k, i);
        assert LiveAt(after.coins, d, k, i);
      }
    }
    forall d: Commitment, k: nat, e: Commitment, l: nat, i: nat |
      LiveAt(after.coins, d, k, i) && LiveAt(after.coins, e, l, i)
      ensures d == e && k == l
    {
      if i == n {
        assert !LiveAt(st.coins, d, k, n) && !LiveAt(st.coins, e, l, n);
      }
    }
  }

  ghost function LeavesOfCoins(coins: seq<Coin>): (r: seq<nat>)
    ensures |r| == |coins| && forall j :: 0 <= j < |r| ==> r[j] == coins[j].leafIdx
  {
    seq(|coins|, j requires 0 <= j < |coins| => coins[j].leafIdx)
  }

  /** What a successful series of spends does: it takes the newest coins of each commitment, newest first. */
  lemma {:induction false} SpendAllShape(st: State, inputs: seq<Commitment>)
    requires Consistent(st) && SpendAll(st, inputs).Ok?
    ensures var (after, spent) := SpendAll(st, inputs).value;
      && Consistent(after)
      && after == st.(coins := after.coins, unspent := after.unspent)
      && |spent| == |inputs| && (forall j :: 0 <= j < |spent| ==> spent[j].output.commitment == inputs[j])
      && (forall i: nat :: i in after.unspent <==> i in st.unspent && i !in LeavesOfCoins(spent))
      && (forall j :: 0 <= j < |spent| ==> spent[j].leafIdx in st.unspent)
    decreases |inputs|
  {
    hide Consistent;
    if inputs != [] {
      SpendConsistent(st, inputs[0]);
      SpendFiled(st, inputs[0]);
      var (st1, coin) := Spend(st, inputs[0]).value;
      SpendAllShape(st1, inputs[1..]);
      var (after, spent) := SpendAll(st, inputs).value;
      var (after', rest) := SpendAll(st1, inputs[1..]).value;
      assert spent == [coin] + rest;
      assert LeavesOfCoins(spent) == [coin.leafIdx] + LeavesOfCoins(rest);
    }
  }

  /** The stacks after a series of spends lose their newest coins. */
  lemma {:induction false} SpendAllStacks(st: State, inputs: seq<Commitment>, c: Commitment)
    requires Consistent(st) && SpendAll(st, inputs).Ok?
    ensures multiset(inputs)[c] <= |st.coins[c]|
    ensures SpendAll(st, inputs).value.0.coins[c] == st.coins[c][..|st.coins[c]| - multiset(inputs)[c]]
    decreases |inputs|
  {
    hide Consistent;
    if inputs != [] {
      CountSplit(inputs, c);
      SpendConsistent(st, inputs[0]);
      SpendAllStacks(Spend(st, inputs[0]).value.0, inputs[1..], c);
    }
  }

  /** The m newest coins of a stack, the newest one first. */
  ghost function Newest(stack: seq<Coin>, m: nat): (r: seq<Coin>)
    requires m <= |stack|
    ensures |r| == m && forall j :: 0 <= j < m ==> r[j] == stack[|stack| - 1 - j]
  {
    seq(m, j requires 0 <= j < m => stack[|stack| - 1 - j])
  }

  /** The coins taken from a stack: as many as are asked for, the newest one first. */
  lemma {:induction false} SpentCoins(st: State, inputs: seq<Commitment>, c: Commitment)
    requires Consistent(st) && SpendAll(st, inputs).Ok?
    ensures multiset(inputs)[c] <= |st.coins[c]|
    ensures OfCommitment(SpendAll(st, inputs).value.1, c) == Newest(st.coins[c], multiset(inputs)[c])
    decreases |inputs|
  {
    hide Consistent;
    SpendAllStacks(st, inputs, c);
    if inputs != [] {
      CountSplit(inputs, c);
      SpendConsistent(st, inputs[0]);
      SpendFiled(st, inputs[0]);
      var (st1, coin) := Spend(st, inputs[0]).value;
      var spent := SpendAll(st, inputs).value.1;
      assert spent[0] == coin && spent[1..] == SpendAll(st1, inputs[1..]).value.1;
      SpentCoins(st1, inputs[1..], c);
    }
  }

  /** A series of spends succeeds exactly when no commitment is spent more often than it has coins. */
  lemma {:induction false} SpendAllOkIff(st: State, inputs: seq<Commitment>)
    requires Consistent(st)
    ensures SpendAll(st, inputs).Ok? <==> forall c: Commitment :: multiset(inputs)[c] <= |st.coins[c]|
    ensures SpendAll(st, inputs).Err? ==> SpendAll(st, inputs).error == UtxoMissing
    decreases |inputs|
  {
    if inputs != [] {
      var c := inputs[0];
      CountSplit(inputs, c);
      SpendConsistent(st, c);
      if st.coins[c] != [] {
        var (st1, coin) := Spend(st, c).value;
        SpendAllOkIff(st1, inputs[1..]);
        forall d: Commitment
          ensures multiset(inputs)[d] <= |st.coins[d]| <==> multiset(inputs[1..])[d] <= |st1.coins[d]|
        {
          CountSplit(inputs, d);
        }
      }
    }
  }

  /** The coins of new outputs, on leaves from `first` on. */
  ghost function NewCoins(first: nat, height: nat, outputs: seq<Output>): (r: seq<Coin>)
    ensures |r| == |outputs|
    ensures forall j :: 0 <= j < |r| ==> r[j] == Coin(height, first + j, outputs[j])
  {
    seq(|outputs|, j requires 0 <= j < |outputs| => Coin(height, first + j, outputs[j]))
  }

  ghost function Ids(outputs: seq<Output>): (r: seq<Bytes>)
    ensures |r| == |outputs| && forall j :: 0 <= j < |r| ==> r[j] == outputs[j].id
  {
    seq(|outputs|, j requires 0 <= j < |outputs| => outputs[j].id)
  }

  lemma ConsistentSize(st: State)
    requires Consistent(st)
    ensures st.next == |st.outputs| && AllBelow(st.unspent, st.next)
  {
  }

  lemma {:induction false} AddAllConsistent(st: State, height: nat, outputs: seq<Output>)
    requires Consistent(st)
    ensures Consistent(AddAll(st, height, outputs))
    decreases |outputs|
  {
    hide Consistent;
    if outputs != [] {
      AddConsistent(st, height, outputs[0]);
      AddAllConsistent(AddOne(st, height, outputs[0]), height, outputs[1..]);
    }
  }

  lemma {:induction false} AddAllCoins(st: State, height: nat, outputs: seq<Output>)
    requires TotalCoins(st.coins)
    ensures AddAll(st, height, outputs).coins == PushAll(st.coins, NewCoins(|st.outputs|, height, outputs))
    decreases |outputs|
  {
    var coins := NewCoins(|st.outputs|, height, outputs);
    if outputs != [] {
      var st1 := AddOne(st, height, outputs[0]);
      AddAllCoins(st1, height, outputs[1..]);
      assert coins[1..] == NewCoins(|st1.outputs|, height, outputs[1..]);
    }
  }

  lemma IdsStep(outputs: seq<Output>)
    requires outputs != []
    ensures Ids(outputs) == [outputs[0].id] + Ids(outputs[1..])
  {
  }

  lemma {:induction false} AddAllKeeps(st: State, height: nat, outputs: seq<Output>)
    requires TotalCoins(st.coins)
    ensures var after := AddAll(st, height, outputs); after.kernels == st.kernels && after.header == st.header
    decreases |outputs|
  {
    if outputs != [] { AddAllKeeps(AddOne(st, height, outputs[0]), height, outputs[1..]); }
  }

  lemma {:induction false} AddAllOutputs(st: State, height: nat, outputs: seq<Output>)
    requires TotalCoins(st.coins)
    ensures AddAll(st, height, outputs).outputs == st.outputs + Ids(outputs)
    decreases |outputs|
  {
    hide Ids;
    if outputs == [] {
      assert Ids(outputs) == [];
    } else {
      var st1 := AddOne(st, height, outputs[0]);
      IdsStep(outputs);
      AddAllOutputs(st1, height, outputs[1..]);
      assert st1.outputs == st.outputs + [outputs[0].id];
      assert st.outputs + [outputs[0].id] + Ids(outputs[1..]) == st.outputs + ([outputs[0].id] + Ids(outputs[1..]));
    }
  }

  lemma {:induction false} AddAllUnspent(st: State, height: nat, outputs: seq<Output>)
    requires TotalCoins(st.coins)
    ensures forall i: nat :: i in AddAll(st, height, outputs).unspent <==>
              i in st.unspent || |st.outputs| <= i < |st.outputs| + |outputs|
    decreases |outputs|
  {
    if outputs != [] {
      AddAllUnspent(AddOne(st, height, outputs[0]), height, outputs[1..]);
    }
  }

  /** What adding outputs does: new coins on top of their stacks, on the leaves after the old ones. */
  lemma AddAllShape(st: State, height: nat, outputs: seq<Output>)
    requires Consistent(st)
    ensures var after := AddAll(st, height, outputs);
      && Consistent(after)
      && after.kernels == st.kernels && after.header == st.header
      && after.outputs == st.outputs + Ids(outputs) && after.next == |after.outputs|
      && after.coins == PushAll(st.coins, NewCoins(|st.outputs|, height, outputs))
      && (forall i: nat :: i in after.unspent <==> i in st.unspent || |st.outputs| <= i < |after.outputs|)
  {
    hide AddAll;
    AddAllConsistent(st, height, outputs);
    AddAllCoins(st, height, outputs);
    AddAllKeeps(st, height, outputs);
    AddAllOutputs(st, height, outputs);
    AddAllUnspent(st, height, outputs);
    ConsistentSize(AddAll(st, height, outputs));
  }

  lemma {:induction false} AddAllStack(st: State, height: nat, outputs: seq<Output>, c: Commitment)
    requires Consistent(st)
    ensures AddAll(st, height, outputs).coins[c]
         == st.coins[c] + OfCommitment(NewCoins(|st.outputs|, height, outputs), c)
    ensures |OfCommitment(NewCoins(|st.outputs|, height, outputs), c)| == multiset(Commitments(outputs))[c]
    ensures forall j :: 0 <= j < |OfCommitment(NewCoins(|st.outputs|, height, outputs), c)| ==>
              OfCommitment(NewCoins(|st.outputs|, height, outputs), c)[j].leafIdx >= |st.outputs|
  {
    var coins := NewCoins(|st.outputs|, height, outputs);
    AddAllCoins(st, height, outputs);
    PushAllStacks(st.coins, coins, c);
    OfCommitmentCount(coins, Commitments(outputs), c);
    OfCommitmentAll(coins, c, |st.outputs|);
  }

  lemma {:induction false} OfCommitmentAll(coins: seq<Coin>, c: Commitment, bound: nat)
    requires forall j :: 0 <= j < |coins| ==> coins[j].leafIdx >= bound
    ensures forall j :: 0 <= j < |OfCommitment(coins, c)| ==> OfCommitment(coins, c)[j].leafIdx >= bound
  {
    if coins != [] { OfCommitmentAll(coins[1..], c, bound); }
  }
}
