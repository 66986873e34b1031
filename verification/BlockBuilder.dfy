/** mw::BlockBuilder: collecting transactions for the next block, and building it. */
module Builders {
  import opened Bits
  import opened Merkle
  import opened Backend
  import opened LeafSets
  import opened Chain
  import opened Blocks
  import opened CoinsViews
  import opened Wrappers

  const MAX_BLOCK_WEIGHT: nat := 21_000
  const KERNEL_WEIGHT: nat := 2
  const OWNER_SIG_WEIGHT: nat := 1
  const OUTPUT_WEIGHT: nat := 18

  datatype PegIn = PegIn(amount: nat, commitment: Commitment)

  /** A transaction, with what Transaction::Validate decides about it. */
  datatype Transaction = Transaction(body: Body, ownerSigs: nat, pegIns: seq<PegIn>, valid: bool)

  /** Weight::Calculate */
  function Weight(tx: Transaction): nat {
    |tx.body.kernels| * KERNEL_WEIGHT + tx.ownerSigs * OWNER_SIG_WEIGHT + |tx.body.outputs| * OUTPUT_WEIGHT
  }

  /** Aggregation::Aggregate of two transactions, before its sorting. */
  function Aggregate(a: Transaction, b: Transaction): Transaction {
    Transaction(
      Body(a.body.inputs + b.body.inputs, a.body.outputs + b.body.outputs, a.body.kernels + b.body.kernels),
      a.ownerSigs + b.ownerSigs, a.pegIns + b.pegIns, a.valid && b.valid)
  }

  lemma AggregateWeight(a: Transaction, b: Transaction)
    ensures Weight(Aggregate(a, b)) == Weight(a) + Weight(b)
  {
  }

  function CommitmentsOf(pegIns: seq<PegIn>): set<Commitment> {
    set p | p in pegIns :: p.commitment
  }

  ghost predicate NoneTwice(pegIns: seq<PegIn>) {
    forall j, k :: 0 <= j < k < |pegIns| ==> pegIns[j].commitment != pegIns[k].commitment
  }

  /** The sum of the amounts, in 64 bits. */
  function Amount(pegIns: seq<PegIn>): nat {
    if pegIns == [] then 0 else (Amount(pegIns[..|pegIns| - 1]) + pegIns[|pegIns| - 1].amount) % U64
  }

  /** The amount of two lists together, and of one peg-in. */
  lemma {:induction false} AmountAdds(a: seq<PegIn>, b: seq<PegIn>, p: PegIn)
    ensures Amount([]) == 0 && Amount([p]) == p.amount % U64
    ensures Amount(a + b) == (Amount(a) + Amount(b)) % U64
    decreases |b|
  {
    assert [p][..0] == [];
    if b == [] {
      assert a + b == a;
      AmountFits(a);
    } else {
      var init, last := b[..|b| - 1], b[|b| - 1];
      AmountAdds(a, init, p);
      assert (a + b)[..|a + b| - 1] == a + init;
      Sum3(Amount(a), Amount(init), last.amount);
    }
  }

  lemma AmountFits(pegIns: seq<PegIn>)
    ensures Amount(pegIns) % U64 == Amount(pegIns)
  {
  }

  lemma Sum3(x: nat, y: nat, z: nat)
    ensures ((x + y) % U64 + z) % U64 == (x + (y + z) % U64) % U64
  {
  }

  /**
    What AddTransaction asks of the peg-ins of a transaction and those expected: the same total and the same number,
    no expected commitment twice, and no commitment that is not expected.
   */
  ghost predicate PegInsMatch(actual: seq<PegIn>, expected: seq<PegIn>) {
    && Amount(actual) == Amount(expected)
    && NoneTwice(expected)
    && |actual| == |expected|
    && CommitmentsOf(actual) <= CommitmentsOf(expected)
  }

  datatype Outcome = Added | Refused | Invalid

  /** AddTransaction's decision. Invalid stands for the exception of Transaction::Validate. */
  ghost function Decide(st: State, weight: nat, tx: Transaction, pegIns: seq<PegIn>): Outcome
    requires TotalCoins(st.coins)
  {
    if Weight(tx) + weight > MAX_BLOCK_WEIGHT || !PegInsMatch(tx.pegIns, pegIns) then Refused
    else if !tx.valid then Invalid
    else if !InputsOnChain(st, tx.body) then Refused
    else Added
  }

  /** When AddTransaction adds a transaction, and when Transaction::Validate throws. */
  lemma DecideIff(st: State, weight: nat, tx: Transaction, pegIns: seq<PegIn>)
    requires TotalCoins(st.coins)
    ensures Decide(st, weight, tx, pegIns) == Added <==>
              && weight + 2 * |tx.body.kernels| + tx.ownerSigs + 18 * |tx.body.outputs| <= 21_000
              && Expected(tx.pegIns, pegIns)
              && tx.valid
              && (forall c :: c in tx.body.inputs ==> st.coins[c] != [])
              && (forall o :: o in tx.body.outputs ==> st.coins[o.commitment] == [])
    ensures Decide(st, weight, tx, pegIns) == Invalid <==>
              && weight + 2 * |tx.body.kernels| + tx.ownerSigs + 18 * |tx.body.outputs| <= 21_000
              && Expected(tx.pegIns, pegIns)
              && !tx.valid
  {
    hide PegInsMatch, Expected;
    ExpectedIff(tx.pegIns, pegIns);
  }

  /** The peg-ins are of the amount and number expected, and each is for an expected commitment, of which none repeats. */
  ghost predicate Expected(actual: seq<PegIn>, expected: seq<PegIn>) {
    && Amount(actual) == Amount(expected)
    && |actual| == |expected|
    && (forall j, k :: 0 <= j < k < |expected| ==> expected[j].commitment != expected[k].commitment)
    && (forall p :: p in actual ==> exists q :: q in expected && q.commitment == p.commitment)
  }

  lemma ExpectedIff(actual: seq<PegIn>, expected: seq<PegIn>)
    ensures PegInsMatch(actual, expected) <==> Expected(actual, expected)
  {
    if PegInsMatch(actual, expected) {
      forall p | p in actual ensures exists q :: q in expected && q.commitment == p.commitment {
        assert p.commitment in CommitmentsOf(actual);
      }
    }
  }

  method SumAmounts(pegIns: seq<PegIn>) returns (sum: nat)
    ensures sum == Amount(pegIns)
  {
    sum := 0;
    var i := 0;
    while i < |pegIns|
      invariant 0 <= i <= |pegIns| && sum == Amount(pegIns[..i])
    {
      assert pegIns[..i + 1][..i] == pegIns[..i];
      sum := (sum + pegIns[i].amount) % U64;
      i := i + 1;
    }
    assert pegIns[..i] == pegIns;
  }

  /** The checks on the peg-ins, in the source's order. */
  method CheckPegIns(actual: seq<PegIn>, expected: seq<PegIn>) returns (ok: bool)
    ensures ok <==> PegInsMatch(actual, expected)
  {
    var actualAmount := SumAmounts(actual);
    var expectedAmount := SumAmounts(expected);
    if actualAmount != expectedAmount {
      return false;
    }
    var commitments: set<Commitment> := {};
    var i := 0;
    while i < |expected|
      invariant 0 <= i <= |expected|
      invariant commitments == CommitmentsOf(expected[..i]) && NoneTwice(expected[..i])
    {
      assert expected[..i + 1] == expected[..i] + [expected[i]];
      if expected[i].commitment in commitments {
        ghost var p :| p in expected[..i] && p.commitment == expected[i].commitment;
        ghost var j :| 0 <= j < i && expected[j] == p;
        return false;
      }
      commitments := commitments + {expected[i].commitment};
      i := i + 1;
    }
    assert expected[..i] == expected;
    if |actual| != |expected| {
      return false;
    }
    i := 0;
    while i < |actual|
      invariant 0 <= i <= |actual|
      invariant CommitmentsOf(actual[..i]) <= commitments
    {
      assert actual[..i + 1] == actual[..i] + [actual[i]];
      if actual[i].commitment !in commitments {
        assert actual[i] in actual && actual[i].commitment in CommitmentsOf(actual);
        return false;
      }
      i := i + 1;
    }
    assert actual[..i] == actual;
    ok := true;
  }

  /** Peg-ins that match, none of them twice, are for the expected commitments, each of them once. */
  lemma MatchingPegIns(actual: seq<PegIn>, expected: seq<PegIn>)
    requires PegInsMatch(actual, expected) && NoneTwice(actual)
    ensures CommitmentsOf(actual) == CommitmentsOf(expected)
  {
    Size(actual);
    Size(expected);
    SubsetOfSize(CommitmentsOf(actual), CommitmentsOf(expected));
  }

  lemma {:induction false} Size(pegIns: seq<PegIn>)
    requires NoneTwice(pegIns)
    ensures |CommitmentsOf(pegIns)| == |pegIns|
  {
    if pegIns != [] {
      var init, last := pegIns[..|pegIns| - 1], pegIns[|pegIns| - 1];
      Size(init);
      assert pegIns == init + [last];
      assert CommitmentsOf(pegIns) == CommitmentsOf(init) + {last.commitment};
      assert last.commitment !in CommitmentsOf(init);
    }
  }

  lemma SubsetOfSize(a: set<Commitment>, b: set<Commitment>)
    requires a <= b && |a| == |b|
    ensures a == b
  {
    assert b == a + (b - a);
    assert |b| == |a| + |b - a|;
  }

  /** The weight is that of what was collected, within the cap, and the collected inputs and outputs pass the checks. */
  ghost predicate Collects(st: State, weight: nat, aggregated: Option<Transaction>)
    requires TotalCoins(st.coins)
  {
    && weight <= MAX_BLOCK_WEIGHT
    && match aggregated
       case None => weight == 0
       case Some(tx) => weight == Weight(tx) && tx.valid && InputsOnChain(st, tx.body)
  }

  /** What the next block will hold. */
  function BodyOf(aggregated: Option<Transaction>): Body {
    if aggregated.Some? then aggregated.value.body else Body([], [], [])
  }

  function With(aggregated: Option<Transaction>, tx: Transaction): Option<Transaction> {
    Some(if aggregated.None? then tx else Aggregate(aggregated.value, tx))
  }

  lemma CollectsMore(st: State, weight: nat, aggregated: Option<Transaction>, tx: Transaction)
    requires TotalCoins(st.coins) && Collects(st, weight, aggregated)
    requires Weight(tx) + weight <= MAX_BLOCK_WEIGHT && tx.valid && InputsOnChain(st, tx.body)
    ensures Collects(st, weight + Weight(tx), With(aggregated, tx))
  {
    if aggregated.Some? { AggregateWeight(aggregated.value, tx); }
  }

  // ---------- what was added ----------

  /** The elements of all parts. */
  ghost function Sum<T>(parts: seq<seq<T>>): multiset<T> {
    if parts == [] then multiset{} else Sum(parts[..|parts| - 1]) + multiset(parts[|parts| - 1])
  }

  lemma {:induction false} SumAdds<T>(a: seq<seq<T>>, b: seq<seq<T>>, part: seq<T>)
    ensures Sum<T>([]) == multiset{} && Sum([part]) == multiset(part)
    ensures Sum(a + b) == Sum(a) + Sum(b)
    decreases |b|
  {
    assert [part][..0] == [];
    if b == [] {
      assert a + b == a;
    } else {
      SumAdds(a, b[..|b| - 1], part);
      assert (a + b)[..|a + b| - 1] == a + b[..|b| - 1];
    }
  }

  ghost function InputsIn(txs: seq<Transaction>): multiset<Commitment> {
    Sum(seq(|txs|, i requires 0 <= i < |txs| => txs[i].body.inputs))
  }

  ghost function OutputsIn(txs: seq<Transaction>): multiset<Output> {
    Sum(seq(|txs|, i requires 0 <= i < |txs| => txs[i].body.outputs))
  }

  ghost function KernelsIn(txs: seq<Transaction>): multiset<Bytes> {
    Sum(seq(|txs|, i requires 0 <= i < |txs| => txs[i].body.kernels))
  }

  lemma AddedOne(txs: seq<Transaction>, tx: Transaction)
    ensures InputsIn([]) == multiset{} && OutputsIn([]) == multiset{} && KernelsIn([]) == multiset{}
    ensures InputsIn(txs + [tx]) == InputsIn(txs) + multiset(tx.body.inputs)
    ensures OutputsIn(txs + [tx]) == OutputsIn(txs) + multiset(tx.body.outputs)
    ensures KernelsIn(txs + [tx]) == KernelsIn(txs) + multiset(tx.body.kernels)
  {
    var more := txs + [tx];
    assert seq(|more|, i requires 0 <= i < |more| => more[i].body.inputs)[..|txs|]
        == seq(|txs|, i requires 0 <= i < |txs| => txs[i].body.inputs);
    assert seq(|more|, i requires 0 <= i < |more| => more[i].body.outputs)[..|txs|]
        == seq(|txs|, i requires 0 <= i < |txs| => txs[i].body.outputs);
    assert seq(|more|, i requires 0 <= i < |more| => more[i].body.kernels)[..|txs|]
        == seq(|txs|, i requires 0 <= i < |txs| => txs[i].body.kernels);
  }

  /** A body with the inputs, the outputs and the kernels of all the transactions, and no others. */
  ghost predicate IsTotal(body: Body, txs: seq<Transaction>) {
    && multiset(body.inputs) == InputsIn(txs)
    && multiset(body.outputs) == OutputsIn(txs)
    && multiset(body.kernels) == KernelsIn(txs)
  }

  lemma NothingTotal()
    ensures IsTotal(BodyOf(None), [])
  {
    AddedOne([], Transaction(Body([], [], []), 0, [], true));
  }

  lemma TotalWith(aggregated: Option<Transaction>, txs: seq<Transaction>, tx: Transaction)
    requires IsTotal(BodyOf(aggregated), txs)
    ensures With(aggregated, tx).Some? && IsTotal(BodyOf(With(aggregated, tx)), txs + [tx])
  {
    hide InputsIn, OutputsIn, KernelsIn;
    AddedOne(txs, tx);
  }

  class BlockBuilder {
    const height: nat
    /** The builder's own cache over the view it was given. */
    const view: CoinsViewCache
    var weight: nat
    var aggregated: Option<Transaction>
    /** The transactions added, in order. */
    ghost var added: seq<Transaction>

    ghost predicate Valid()
      reads this, view, view.leafSet, view.kernelMMR, view.outputMMR, CachedView(view).Repr()
    {
      && this !in CachedView(view).Repr()
      && view.Valid()
      && Collects(view.Content(), weight, aggregated)
      && IsTotal(BodyOf(aggregated), added)
    }

    constructor (height: nat, base: ICoinsView)
      requires base.Valid()
      ensures Valid() && this.height == height && aggregated == None && weight == 0 && added == []
      ensures view.Content() == old(base.Content())
    {
      hide *;
      assert allocated(base.Repr());
      var view := new CoinsViewCache(base);
      assert allocated(CachedView(view).Repr());
      this.height, this.view, weight, aggregated, added := height, view, 0, None, [];
      new;
      NothingTotal();
      ValidParts();
    }

    lemma ValidParts()
      ensures Valid() <==>
                && this !in CachedView(view).Repr() && view.Valid() && Collects(view.Content(), weight, aggregated)
                && IsTotal(BodyOf(aggregated), added)
      ensures view.Valid() ==> Collects(view.Content(), 0, None)
    {
    }

    method AddTransaction(tx: Transaction, pegIns: seq<PegIn>) returns (outcome: Outcome)
      requires Valid()
      modifies this
      ensures Valid() && view.Content() == old(view.Content())
      ensures outcome == Added <==>
                && old(weight) + 2 * |tx.body.kernels| + tx.ownerSigs + 18 * |tx.body.outputs| <= 21_000
                && Expected(tx.pegIns, pegIns)
                && tx.valid
                && (forall c :: c in tx.body.inputs ==> view.Content().coins[c] != [])
                && (forall o :: o in tx.body.outputs ==> view.Content().coins[o.commitment] == [])
      ensures outcome == Invalid <==>
                && old(weight) + 2 * |tx.body.kernels| + tx.ownerSigs + 18 * |tx.body.outputs| <= 21_000
                && Expected(tx.pegIns, pegIns)
                && !tx.valid
      ensures outcome == Added ==>
                && added == old(added) + [tx]
                && weight == old(weight) + 2 * |tx.body.kernels| + tx.ownerSigs + 18 * |tx.body.outputs|
                && aggregated.Some?
                && multiset(aggregated.value.body.inputs) == InputsIn(added)
                && multiset(aggregated.value.body.outputs) == OutputsIn(added)
                && multiset(aggregated.value.body.kernels) == KernelsIn(added)
      ensures outcome != Added ==> weight == old(weight) && aggregated == old(aggregated) && added == old(added)
    {
      hide *;
      ValidParts();
      view.AsView();
      assert allocated(CachedView(view).Repr());
      ghost var st := view.Content();
      DecisionCases(st, weight, tx, pegIns);
      DecideIff(st, weight, tx, pegIns);
      if Weight(tx) + weight > MAX_BLOCK_WEIGHT {
        return Refused;
      }
      var matching := CheckPegIns(tx.pegIns, pegIns);
      if !matching {
        return Refused;
      }
      if !tx.valid {
        return Invalid;
      }
      var available := CheckChain(view, tx.body);
      if !available {
        return Refused;
      }
      CollectsMore(st, weight, aggregated, tx);
      TotalWith(aggregated, added, tx);
      aggregated := With(aggregated, tx);
      added := added + [tx];
      weight := weight + Weight(tx);
      ValidParts();
      TotalParts(aggregated, added);
      WeightIs(tx);
      outcome := Added;
    }

    /**
      Builds the next block in another cache. On a consistent chain state it succeeds exactly when the collected
      transactions together spend no commitment more often than it has coins, and then the block can be connected.
     */
    method BuildBlock() returns (r: Result<Block>)
      requires Valid() && view.Content().next <= MAX_LEAVES
      requires |view.Content().kernels| + |BodyOf(aggregated).kernels| <= MAX_LEAVES
      requires |view.Content().outputs| + |BodyOf(aggregated).outputs| <= MAX_LEAVES
      ensures Valid() && view.Content() == old(view.Content())
      ensures match Build(view.Content(), height, BodyOf(aggregated))
              case Ok((built, block)) => r == Ok(block)
              case Err(e) => r == Err(e)
      ensures r.Ok? ==>
                && multiset(r.value.body.inputs) == InputsIn(added)
                && multiset(r.value.body.outputs) == OutputsIn(added)
                && multiset(r.value.body.kernels) == KernelsIn(added)
      ensures r.Ok? ==> var st, h := view.Content(), r.value.header;
                && h.height == height
                && h.kernelRoot == MmrRoot(st.kernels + r.value.body.kernels)
                && h.numKernels == |st.kernels| + |r.value.body.kernels|
                && h.outputRoot == MmrRoot(st.outputs + Ids(r.value.body.outputs))
                && h.numTXOs == |st.outputs| + |r.value.body.outputs|
      ensures Consistent(view.Content()) ==>
                && (r.Ok? <==> forall c: Commitment :: InputsIn(added)[c] <= |view.Content().coins[c]|)
                && (r.Ok? ==> Apply(view.Content(), r.value, true).Ok?)
                && (r.Ok? ==> var after := Apply(view.Content(), r.value, true).value.0;
                      r.value.header.leafsetRoot == LeafsetRoot(after.unspent, after.next))
    {
      hide *;
      ValidParts();
      view.AsView();
      assert allocated(CachedView(view).Repr());
      ghost var st := view.Content();
      var cache := new CoinsViewCache(CachedView(view));
      r := cache.BuildNextBlock(height, BodyOf(aggregated));
      TotalIs(BodyOf(aggregated), added);
      CoversTotal(st.coins, BodyOf(aggregated), added);
      view.AsView();
      ValidParts();
      CollectedBuilds(st, weight, aggregated, height);
    }

    lemma CollectedBuilds(st: State, w: nat, collected: Option<Transaction>, h: nat)
      requires TotalCoins(st.coins) && Collects(st, w, collected)
      ensures var body := BodyOf(collected);
        && (Consistent(st) ==> (Build(st, h, body).Ok? <==> Covers(st.coins, body.inputs)))
        && (Consistent(st) && Build(st, h, body).Ok? ==>
              var block := Build(st, h, body).value.1;
              && Apply(st, block, true).Ok?
              && block.header.leafsetRoot == LeafsetRoot(Apply(st, block, true).value.0.unspent, Apply(st, block, true).value.0.next))
    {
      hide Consistent, Build, Apply;
      var body := BodyOf(collected);
      if Consistent(st) {
        CheckedBuildOkIff(st, h, body);
        if Build(st, h, body).Ok? {
          BuiltBlockAcceptedIff(st, h, body);
          var block := Build(st, h, body).value.1;
          var st1, st2, spent := ApplySteps(st, block, true);
          MatchesIff(block.header, Apply(st, block, true).value.0);
        }
      }
    }
  }

  lemma TotalIs(body: Body, txs: seq<Transaction>)
    requires IsTotal(body, txs)
    ensures multiset(body.inputs) == InputsIn(txs) && multiset(body.outputs) == OutputsIn(txs)
    ensures multiset(body.kernels) == KernelsIn(txs)
  {
  }

  lemma TotalParts(aggregated: Option<Transaction>, txs: seq<Transaction>)
    requires IsTotal(BodyOf(aggregated), txs) && aggregated.Some?
    ensures multiset(aggregated.value.body.inputs) == InputsIn(txs)
    ensures multiset(aggregated.value.body.outputs) == OutputsIn(txs)
    ensures multiset(aggregated.value.body.kernels) == KernelsIn(txs)
  {
  }

  lemma CoversTotal(coins: Coins, body: Body, txs: seq<Transaction>)
    requires TotalCoins(coins) && IsTotal(body, txs)
    ensures Covers(coins, body.inputs) <==> forall c: Commitment :: InputsIn(txs)[c] <= |coins[c]|
  {
  }

  lemma WeightIs(tx: Transaction)
    ensures Weight(tx) == 2 * |tx.body.kernels| + tx.ownerSigs + 18 * |tx.body.outputs|
  {
  }

  lemma DecisionCases(st: State, weight: nat, tx: Transaction, pegIns: seq<PegIn>)
    requires TotalCoins(st.coins)
    ensures Weight(tx) + weight > MAX_BLOCK_WEIGHT || !PegInsMatch(tx.pegIns, pegIns) ==> Decide(st, weight, tx, pegIns) == Refused
    ensures Weight(tx) + weight <= MAX_BLOCK_WEIGHT && PegInsMatch(tx.pegIns, pegIns) ==>
              Decide(st, weight, tx, pegIns)
                == if !tx.valid then Invalid else if !InputsOnChain(st, tx.body) then Refused else Added
  {
  }

  /** The loops over the inputs and the outputs of a transaction. */
  method CheckChain(view: CoinsViewCache, body: Body) returns (ok: bool)
    requires view.Valid()
    ensures view.Valid() && view.Content() == old(view.Content())
    ensures ok <==> InputsOnChain(view.Content(), body)
  {
    hide *;
    view.AsView();
    assert allocated(CachedView(view).Repr());
    ghost var st := view.Content();
    var i := 0;
    ok := true;
    OnChainStart(st);
    assert body.inputs[..0] == [] && body.outputs[..0] == [];
    while i < |body.inputs|
      invariant 0 <= i <= |body.inputs| && view.Valid() && view.Content() == st
      invariant OnChain(st, body.inputs[..i])
    {
      view.CoinsAre();
      OnChainStep(st, body.inputs, i);
      var utxos := view.GetUTXOs(body.inputs[i]);
      view.AsView();
      if utxos == [] {
        OnChainWhole(st, body, i, 0);
        return false;
      }
      i := i + 1;
    }
    assert body.inputs[..i] == body.inputs;
    i := 0;
    while i < |body.outputs|
      invariant 0 <= i <= |body.outputs| && view.Valid() && view.Content() == st
      invariant OnChain(st, body.inputs) && OffChain(st, body.outputs[..i])
    {
      view.CoinsAre();
      OffChainStep(st, body.outputs, i);
      var utxos := view.GetUTXOs(body.outputs[i].commitment);
      view.AsView();
      if utxos != [] {
        OnChainWhole(st, body, 0, i);
        return false;
      }
      i := i + 1;
    }
    assert body.outputs[..i] == body.outputs;
    InputsOnChainIs(st, body);
  }

  lemma OnChainStart(st: State)
    requires TotalCoins(st.coins)
    ensures OnChain(st, []) && OffChain(st, [])
  {
  }

  lemma OnChainStep(st: State, inputs: seq<Commitment>, i: nat)
    requires TotalCoins(st.coins) && i < |inputs|
    ensures inputs[i] in st.coins
    ensures OnChain(st, inputs[..i + 1]) <==> OnChain(st, inputs[..i]) && st.coins[inputs[i]] != []
  {
    assert inputs[..i + 1] == inputs[..i] + [inputs[i]];
  }

  lemma OffChainStep(st: State, outputs: seq<Output>, i: nat)
    requires TotalCoins(st.coins) && i < |outputs|
    ensures outputs[i].commitment in st.coins
    ensures OffChain(st, outputs[..i + 1]) <==> OffChain(st, outputs[..i]) && st.coins[outputs[i].commitment] == []
  {
    assert outputs[..i + 1] == outputs[..i] + [outputs[i]];
  }

  /** The check fails as soon as one input or one output fails. */
  lemma OnChainWhole(st: State, body: Body, i: nat, j: nat)
    requires TotalCoins(st.coins)
    requires (i < |body.inputs| && !OnChain(st, body.inputs[..i + 1])) || (j < |body.outputs| && !OffChain(st, body.outputs[..j + 1]))
    ensures !InputsOnChain(st, body)
  {
  }

  lemma InputsOnChainIs(st: State, body: Body)
    requires TotalCoins(st.coins)
    ensures InputsOnChain(st, body) <==> OnChain(st, body.inputs) && OffChain(st, body.outputs)
  {
  }
}

