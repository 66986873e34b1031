/**
  mw::ICoinsView, mw::CoinsViewDB and mw::CoinsViewCache: views of the chain state stacked on each other, each
  standing for one flat state.
 */
module CoinsViews {
  import opened Bits
  import opened Merkle
  import opened Backend
  import opened Mmr
  import opened LeafSets
  import opened Chain
  import opened Blocks
  import opened CoinUpdates
  import opened Wrappers

  // ---------- ICoinsView ----------

  datatype ICoinsView = OnDB(db: CoinsViewDB) | CachedView(cache: CoinsViewCache) {

    function Obj(): object {
      match this
      case OnDB(db) => db
      case CachedView(c) => c
    }

    function GetLeafSet(): ILeafSet {
      match this
      case OnDB(db) => ILeafSet.OnFile(db.leafSet)
      case CachedView(c) => ILeafSet.Cached(c.leafSet)
    }

    function GetKernelMMR(): IMMR {
      match this
      case OnDB(db) => IMMR.Bottom(db.kernelMMR)
      case CachedView(c) => IMMR.Cached(c.kernelMMR)
    }

    function GetOutputPMMR(): IMMR {
      match this
      case OnDB(db) => IMMR.Bottom(db.outputMMR)
      case CachedView(c) => IMMR.Cached(c.outputMMR)
    }

    function GetBestHeader(): Option<Header>
      reads Obj()
    {
      match this
      case OnDB(db) => db.header
      case CachedView(c) => c.header
    }

    /** The view objects of this layer and the layers below. */
    ghost function Views(): set<object> {
      match this
      case OnDB(db) => {db}
      case CachedView(c) => c.Views
    }

    ghost function Repr(): set<object> {
      Views() + GetLeafSet().Repr() + GetKernelMMR().Repr() + GetOutputPMMR().Repr()
    }

    /** No object plays two roles. */
    ghost predicate Separate() {
      && Obj() in Views()
      && Views() !! GetLeafSet().Repr() !! GetKernelMMR().Repr() !! GetOutputPMMR().Repr()
    }

    /** The leaf set and the MMRs of this layer are intact. */
    ghost predicate PartsValid()
      reads GetLeafSet().Obj(), GetKernelMMR().Obj(), GetOutputPMMR().Obj()
      reads GetLeafSet().Repr(), GetKernelMMR().Repr(), GetOutputPMMR().Repr()
      ensures PartsValid() ==> Total(GetLeafSet().Bytes())
    {
      && GetLeafSet().Valid()
      && GetKernelMMR().Valid()
      && GetOutputPMMR().Valid()
    }

    ghost predicate Valid()
      reads Obj(), Repr(), GetLeafSet().Obj(), GetKernelMMR().Obj(), GetOutputPMMR().Obj()
      ensures Valid() ==> Separate() && TotalCoins(Coins()) && PartsValid()
      decreases Views(), 2
    {
      match this
      case OnDB(db) => db.Valid()
      case CachedView(c) => c.Valid()
    }

    /** The objects of the layers below. */
    ghost function LowerRepr(): set<object> {
      match this
      case OnDB(db) => {}
      case CachedView(c) => c.base.Repr()
    }

    /** Valid, but for the leaf set and the MMRs of this layer. */
    ghost predicate CoreValid()
      reads Obj(), LowerRepr()
      ensures CoreValid() ==> Separate()
    {
      match this
      case OnDB(db) => Separate()
      case CachedView(c) => c.Layout() && c.base.LeafSetIn() && c.Core()
    }

    ghost predicate LeafSetIn() {
      && Obj() in Repr() && GetLeafSet().Obj() in Repr()
      && GetKernelMMR().Obj() in Repr() && GetOutputPMMR().Obj() in Repr()
    }

    lemma ArePartsValid()
      ensures PartsValid() <==> GetLeafSet().Valid() && GetKernelMMR().Valid() && GetOutputPMMR().Valid()
    {
    }

    lemma OfDB()
      requires OnDB?
      ensures Obj() == db && Coins() == StoredCoins(db.db) && GetBestHeader() == db.header && (CoreValid() <==> Separate())
    {
    }

    lemma ContentParts()
      requires Total(GetLeafSet().Bytes())
      ensures Content() == State(Coins(), LeavesOf(GetLeafSet().Bytes()), GetLeafSet().GetNextLeafIdx(),
                                 GetKernelMMR().Leaves(), GetOutputPMMR().Leaves(), GetBestHeader())
    {
    }

    lemma ValidIsCoreAndParts()
      ensures Valid() <==> CoreValid() && PartsValid()
    {
    }

    /** The live coins this layer stands for. */
    ghost function Coins(): Coins
      reads Obj()
    {
      match this
      case OnDB(db) => StoredCoins(db.db)
      case CachedView(c) => c.Coins
    }

    /** No commitment has two live coins, and the pending updates of this layer can be committed without losing one. */
    ghost predicate Once()
      reads Obj()
    {
      match this
      case OnDB(db) => Unique(StoredCoins(db.db))
      case CachedView(c) => c.Once()
    }

    /** The flat state this layer stands for. */
    ghost function Content(): State
      requires Total(GetLeafSet().Bytes())
      reads Obj(), GetLeafSet().Obj(), GetKernelMMR().Obj(), GetOutputPMMR().Obj()
    {
      State(Coins(), LeavesOf(GetLeafSet().Bytes()), GetLeafSet().GetNextLeafIdx(),
                  GetKernelMMR().Leaves(), GetOutputPMMR().Leaves(), GetBestHeader())
    }

    method GetUTXOs(c: Commitment) returns (utxos: seq<Coin>)
      requires Valid()
      ensures utxos == Coins()[c]
      decreases Views(), 1
    {
      match this {
        case OnDB(db) => utxos := db.GetUTXOs(c);
        case CachedView(cache) => utxos := cache.GetUTXOs(c);
      }
    }

    method WriteBatch(batch: Batch?, updates: Updates, header: Option<Header>)
      requires Valid() && CanReplay(Coins(), updates) && (OnDB? ==> batch != null)
      modifies Obj(), if batch == null then {} else {batch}
      ensures Valid() && GetBestHeader() == header
      ensures CachedView? && old(Once()) && CoinUpdates.Once(Coins(), updates) ==> Once()
      ensures CachedView? ==> Replays(old(Coins()), updates, Coins()) && (batch != null ==> batch.ops == old(batch.ops))
      ensures OnDB? ==> Coins() == old(Coins()) && BatchHolds(batch.ops, old(batch.ops), updates)
    {
      hide MMRCache.Valid, LeafSetCache.Coherent, Replays, CanReplay, BatchHolds, LeavesOf, CoinUpdates.Once;
      match this {
        case OnDB(db) => db.WriteBatch(batch, updates, header);
        case CachedView(c) =>
          c.CoinsAre();
          c.WriteBatch(updates, header);
          c.CoinsAre();
      }
    }

    /** Whether the header commits to this view; an exception in the source. */
    method ValidateMMRs(header: Header) returns (ok: bool)
      requires Valid() && GetLeafSet().GetNextLeafIdx() + 7 < U64
      ensures ok <==>
                && header.kernelRoot == MmrRoot(Content().kernels) && header.numKernels == |Content().kernels|
                && header.outputRoot == MmrRoot(Content().outputs) && header.numTXOs == |Content().outputs|
                && header.leafsetRoot == LeafsetRoot(Content().unspent, Content().next)
    {
      hide IMMR.Valid, ILeafSet.Valid, ILeafSet.Coherent, ICoinsView.Valid, MmrRoot, LeafsetRoot, LeavesOf, Separate;
      assert allocated(GetLeafSet().Repr()) && allocated(GetLeafSet().Obj());
      var kernelRoot := GetKernelMMR().Root();
      var numKernels := GetKernelMMR().GetNextLeafIdx();
      var outputRoot := GetOutputPMMR().Root();
      var numTXOs := GetOutputPMMR().GetNextLeafIdx();
      var leafsetRoot := GetLeafSet().Root();
      ok := !(header.kernelRoot != kernelRoot
              || header.numKernels != numKernels
              || header.outputRoot != outputRoot
              || header.numTXOs != numTXOs
              || header.leafsetRoot != leafsetRoot);
    }
  }

  // ---------- CoinsViewDB ----------

  /** The bottom view: at most one coin for each commitment. */
  class CoinsViewDB {
    const leafSet: LeafSet
    const kernelMMR: MMR
    const outputMMR: MMR
    var db: map<Commitment, Coin>
    var header: Option<Header>

    ghost predicate Valid()
      reads this, leafSet, kernelMMR, kernelMMR.Repr, outputMMR, outputMMR.Repr
    {
      OnDB(this).Separate() && OnDB(this).PartsValid()
    }

    constructor (header: Option<Header>, leafSet: LeafSet, kernelMMR: MMR, outputMMR: MMR)
      requires ILeafSet.OnFile(leafSet).Valid() && kernelMMR.Valid() && outputMMR.Valid()
      requires {leafSet} !! kernelMMR.Repr !! outputMMR.Repr
      ensures Valid() && db == map[] && this.header == header
      ensures this.leafSet == leafSet && this.kernelMMR == kernelMMR && this.outputMMR == outputMMR
    {
      this.header, this.leafSet, this.kernelMMR, this.outputMMR := header, leafSet, kernelMMR, outputMMR;
      db := map[];
    }

    method GetUTXOs(c: Commitment) returns (utxos: seq<Coin>)
      ensures utxos == StackIn(db, c)
    {
      if c in db {
        utxos := [db[c]];
      } else {
        utxos := [];
      }
    }

    /** Leaves the database as it is: the coins are written when the batch is committed. */
    method WriteBatch(batch: Batch, newUpdates: Updates, newHeader: Option<Header>)
      requires CanReplay(StoredCoins(db), newUpdates)
      modifies this`header, batch
      ensures header == newHeader
      ensures BatchHolds(batch.ops, old(batch.ops), newUpdates)
    {
      header := newHeader;
      var coinDB := new DBTransaction(batch);
      var todo := newUpdates.Keys;
      BatchStart(batch.ops, newUpdates);
      while todo != {}
        invariant todo <= newUpdates.Keys && header == newHeader && db == old(db)
        invariant forall c: Commitment :: c in todo ==> coinDB.Added(c) == []
        invariant BatchHoldsBut(batch.ops, old(batch.ops), newUpdates, todo)
        decreases todo
      {
        hide *;
        var c :| c in todo;
        ReplayableAt(db, newUpdates, c);
        ghost var before := batch.ops;
        coinDB.WriteActions(db, c, newUpdates[c]);
        BatchStep(before, old(batch.ops), newUpdates, todo, c, batch.ops);
        todo := todo - {c};
      }
    }

    /** Commits a batch to the coin database. */
    method Commit(batch: Batch)
      modifies this`db
      ensures forall c: Commitment :: StackIn(db, c) ==
                if c in batch.ops then (if batch.ops[c].Some? then [batch.ops[c].value] else []) else old(StackIn(db, c))
    {
      var todo := batch.ops.Keys;
      while todo != {}
        invariant todo <= batch.ops.Keys
        invariant forall c: Commitment :: StackIn(db, c) ==
                    if c in batch.ops.Keys - todo then (if batch.ops[c].Some? then [batch.ops[c].value] else [])
                    else old(StackIn(db, c))
        decreases todo
      {
        var c :| c in todo;
        if batch.ops[c].Some? {
          db := db[c := batch.ops[c].value];
        } else {
          db := db - {c};
        }
        todo := todo - {c};
      }
    }
  }

  lemma ReplayableAt(db: map<Commitment, Coin>, updates: Updates, c: Commitment)
    requires CanReplay(StoredCoins(db), updates) && c in updates
    ensures Replayable(StackIn(db, c), updates[c]) && AllFiled(updates[c], c)
  {
    assert StoredCoins(db)[c] == StackIn(db, c) && GetActions(updates, c) == updates[c];
  }

  lemma BaseParts(base: ICoinsView)
    requires base.Valid()
    ensures base.GetLeafSet().Valid() && base.GetKernelMMR().Valid() && base.GetOutputPMMR().Valid() && TotalCoins(base.Coins())
    ensures base.Views() !! base.GetLeafSet().Repr() !! base.GetKernelMMR().Repr() !! base.GetOutputPMMR().Repr()
    ensures base.Repr() == base.Views() + base.GetLeafSet().Repr() + base.GetKernelMMR().Repr() + base.GetOutputPMMR().Repr()
    ensures base.Obj() in base.Repr() && base.GetLeafSet().Obj() in base.Repr()
         && base.GetKernelMMR().Obj() in base.Repr() && base.GetOutputPMMR().Obj() in base.Repr()
    ensures Total(base.GetLeafSet().Bytes())
         && base.Content() == State(base.Coins(), LeavesOf(base.GetLeafSet().Bytes()), base.GetLeafSet().GetNextLeafIdx(),
                                    base.GetKernelMMR().Leaves(), base.GetOutputPMMR().Leaves(), base.GetBestHeader())
  {
  }

  lemma SeparateExtended(v: set<object>, l: set<object>, k: set<object>, o: set<object>,
                         x: object, y: object, z: object, w: object)
    requires v !! l !! k !! o
    requires {x} !! {y} !! {z} !! {w} && {x, y, z, w} !! v + l + k + o
    ensures v + {x} !! l + {y} !! k + {z} !! o + {w}
  {
  }

  // ---------- CoinsViewCache ----------

  class CoinsViewCache {
    const base: ICoinsView
    const leafSet: LeafSetCache
    const kernelMMR: MMRCache
    const outputMMR: MMRCache
    var updates: Updates
    var header: Option<Header>
    ghost var Coins: Coins
    ghost const Views: set<object>

    /** Everything but the leaf set and the MMRs of this layer. */
    ghost predicate Core()
      reads this, base.Obj(), base.Repr(), base.GetLeafSet().Obj(), base.GetKernelMMR().Obj(), base.GetOutputPMMR().Obj()
      ensures Core() ==> TotalCoins(Coins) && CachedView(this).Separate()
      decreases Views, 0
    {
      && Layout()
      && base.Valid()
      && Replays(base.Coins(), updates, Coins)
    }

    /** How the objects of this layer lie over those of the base. */
    ghost predicate Layout() {
      && Views == base.Views() + {this} && this !in base.Views()
      && CachedView(this).Separate()
      && base.Separate()
      && leafSet.base == base.GetLeafSet() && leafSet.Repr == leafSet.base.Repr() + {leafSet}
      && kernelMMR.base == base.GetKernelMMR() && kernelMMR.Repr == kernelMMR.base.Repr() + {kernelMMR}
      && outputMMR.base == base.GetOutputPMMR() && outputMMR.Repr == outputMMR.base.Repr() + {outputMMR}
      && leafSet !in leafSet.base.Repr() && kernelMMR !in kernelMMR.base.Repr() && outputMMR !in outputMMR.base.Repr()
      && leafSet.base.Obj() in leafSet.base.Repr()
      && kernelMMR.base.Obj() in kernelMMR.base.Repr() && outputMMR.base.Obj() in outputMMR.base.Repr()
      && kernelMMR.base.Own() <= kernelMMR.base.Repr() && outputMMR.base.Own() <= outputMMR.base.Repr()
    }

    ghost predicate Valid()
      reads this, CachedView(this).Repr(), leafSet, kernelMMR, outputMMR
      ensures Valid() ==> Core() && CachedView(this).PartsValid()
      ensures Valid() ==> Total(leafSet.Bytes) && TotalCoins(Content().coins)
      decreases Views, 1
    {
      && Layout()
      && Core()
      && CachedView(this).PartsValid()
    }

    /** No commitment has two live coins, and committing the pending updates loses none. */
    ghost predicate Once()
      reads this`Coins, this`updates
    {
      CoinUpdates.Once(Coins, updates)
    }

    /** The flat state this cache stands for. */
    ghost function Content(): State
      requires Total(leafSet.Bytes)
      reads this, leafSet, kernelMMR, outputMMR
    {
      CachedView(this).Content()
    }

    constructor (base: ICoinsView)
      requires base.Valid()
      ensures Valid() && this.base == base && updates == map[]
      ensures Content() == old(base.Content()) && base.Valid() && base.Content() == old(base.Content())
      ensures fresh(leafSet) && fresh(kernelMMR) && fresh(outputMMR)
    {
      hide *;
      BaseParts(base);
      assert allocated(base.Repr()) && allocated(base.GetLeafSet().Repr());
      assert allocated(base.GetKernelMMR().Repr()) && allocated(base.GetOutputPMMR().Repr());
      assert allocated(base.Views());
      var leafSet := new LeafSetCache(base.GetLeafSet());
      var kernelMMR := new MMRCache(base.GetKernelMMR());
      var outputMMR := new MMRCache(base.GetOutputPMMR());
      this.base, this.leafSet, this.kernelMMR, this.outputMMR := base, leafSet, kernelMMR, outputMMR;
      updates := map[];
      header := base.GetBestHeader();
      Coins := base.Coins();
      Views := base.Views() + {this};
      new;
      BaseParts(base);
      SeparateExtended(base.Views(), base.GetLeafSet().Repr(), base.GetKernelMMR().Repr(), base.GetOutputPMMR().Repr(),
                       this, leafSet, kernelMMR, outputMMR);
      LaidOut();
      ReplaysNothing(Coins);
      CoreParts();
      FromParts();
    }

    lemma LaidOut()
      requires base.Valid()
      requires Views == base.Views() + {this} && leafSet.base == base.GetLeafSet()
      requires kernelMMR.base == base.GetKernelMMR() && outputMMR.base == base.GetOutputPMMR()
      requires leafSet.Repr == leafSet.base.Repr() + {leafSet} && kernelMMR.Repr == kernelMMR.base.Repr() + {kernelMMR}
            && outputMMR.Repr == outputMMR.base.Repr() + {outputMMR}
      requires this !in base.Views() && leafSet !in leafSet.base.Repr() && kernelMMR !in kernelMMR.base.Repr()
            && outputMMR !in outputMMR.base.Repr()
      requires Views !! leafSet.Repr !! kernelMMR.Repr !! outputMMR.Repr
      ensures Layout()
    {
    }

    /** The stack below, with this cache's actions replayed on it. */
    method GetUTXOs(c: Commitment) returns (utxos: seq<Coin>)
      requires Valid()
      ensures utxos == Coins[c]
      decreases Views, 0
    {
      hide IMMR.Valid, ILeafSet.Valid, ILeafSet.Coherent, ICoinsView.Valid, ICoinsView.PartsValid, Replays, Replay, Replayable;
      ghost var stack := base.Coins()[c];
      ReplaysAt(base.Coins(), updates, Coins, c);
      utxos := base.GetUTXOs(c);
      var actions := GetActions(updates, c);
      assert utxos == Replay(stack, actions[..0]) by { ReplayNothing(stack); }
      var i := 0;
      while i < |actions|
        invariant 0 <= i <= |actions|
        invariant utxos == Replay(stack, actions[..i])
      {
        ReplayablePrefix(stack, actions, i);
        ReplayStep(stack, actions[..i], actions[i]);
        assert actions[..i + 1] == actions[..i] + [actions[i]];
        if actions[i].Some? {
          utxos := utxos + [actions[i].value];
        } else {
          assert utxos != [];
          utxos := utxos[..|utxos| - 1];
        }
        i := i + 1;
      }
      assert actions[..i] == actions;
    }

    // ---------- adding and spending ----------

    /** What this layer's own objects are not part of. */
    lemma Roles()
      requires Layout()
      ensures base.Obj() in base.Repr() && base.GetLeafSet().Obj() in base.Repr()
      ensures base.GetKernelMMR().Obj() in base.Repr() && base.GetOutputPMMR().Obj() in base.Repr()
      ensures {this, leafSet, kernelMMR, outputMMR} !! base.Repr()
      ensures {this, kernelMMR, outputMMR} !! leafSet.Repr
      ensures {this, leafSet, outputMMR} !! kernelMMR.Repr
      ensures {this, leafSet, kernelMMR} !! outputMMR.Repr
      ensures leafSet in leafSet.Repr && kernelMMR in kernelMMR.Repr && outputMMR in outputMMR.Repr
    {
    }

    /** This cache as the base of another one. */
    lemma AsView()
      ensures CachedView(this).Valid() <==> Valid()
      ensures Valid() ==> Total(CachedView(this).GetLeafSet().Bytes()) && CachedView(this).Content() == Content()
      ensures CachedView(this).Obj() == this && CachedView(this).GetLeafSet().Obj() == leafSet
      ensures CachedView(this).GetKernelMMR().Obj() == kernelMMR && CachedView(this).GetOutputPMMR().Obj() == outputMMR
      ensures CachedView(this).GetKernelMMR().Own() == {kernelMMR} && CachedView(this).GetOutputPMMR().Own() == {outputMMR}
    {
    }

    /** What a valid cache consists of. */
    lemma Parts()
      requires Valid()
      ensures Layout() && Core() && leafSet.Valid() && kernelMMR.Valid() && outputMMR.Valid()
      ensures Content() == State(Coins, LeavesOf(leafSet.Bytes), leafSet.nextLeafIdx, kernelMMR.Leaves, outputMMR.Leaves, header)
    {
      CachedLeafSetValid(leafSet);
      CachedValid(kernelMMR);
      CachedValid(outputMMR);
    }

    lemma FromParts()
      requires Layout() && Core() && leafSet.Valid() && kernelMMR.Valid() && outputMMR.Valid()
      ensures Valid()
      ensures Content() == State(Coins, LeavesOf(leafSet.Bytes), leafSet.nextLeafIdx, kernelMMR.Leaves, outputMMR.Leaves, header)
    {
      CachedLeafSetValid(leafSet);
      CachedValid(kernelMMR);
      CachedValid(outputMMR);
    }

    lemma CoreParts()
      ensures Core() <==> Layout() && base.Valid() && Replays(base.Coins(), updates, Coins)
    {
    }

    /** CoinsViewUpdates::AddUTXO and CoinsViewUpdates::SpendUTXO. */
    method Record(c: Commitment, action: CoinAction)
      requires Valid() && if action.None? then Coins[c] != [] else action.value.output.commitment == c
      modifies this`updates, this`Coins
      ensures Valid()
      ensures Content() == old(Content()).(coins := old(Coins)[c := Act(old(Coins)[c], action)])
      ensures updates == AddAction(old(updates), c, action)
      ensures old(Once()) && (action.None? || Unique(Content().coins)) ==> Once()
    {
      hide Valid, Content, Layout, Core, ICoinsView.PartsValid, ICoinsView.Valid, MMRCache.Valid, LeafSetCache.Valid, LeavesOf;
      hide Replays, Act, CoinUpdates.Once, AddAction, Unique;
      Parts();
      CoreParts();
      Roles();
      assert allocated(base.Repr()) && allocated(leafSet.Repr) && allocated(kernelMMR.Repr) && allocated(outputMMR.Repr);
      ReplaysAction(base.Coins(), updates, Coins, c, action);
      if Once() && (action.None? || Unique(Coins[c := Act(Coins[c], action)])) { OnceAct(Coins, updates, c, action); }
      updates := AddAction(updates, c, action);
      Coins := Coins[c := Act(Coins[c], action)];
      CoreParts();
      FromParts();
    }

    method AddUTXO(height: nat, output: Output)
      requires Valid() && |Content().outputs| < MAX_LEAVES
      modifies this, leafSet, outputMMR
      ensures Valid() && Content() == AddOne(old(Content()), height, output)
      ensures old(Once()) && Unique(Content().coins) ==> Once()
    {
      hide *;
      AddOneIs(Content(), height, output);
      PositionsFit(|Content().outputs|);
      Parts();
      Roles();
      assert allocated(base.Repr()) && allocated(leafSet.Repr) && allocated(kernelMMR.Repr) && allocated(outputMMR.Repr);
      var leafIdx := outputMMR.AddLeaf(output.id);
      leafSet.Add(leafIdx);
      FromParts();
      Record(output.commitment, Some(Coin(height, leafIdx, output)));
    }

    method SpendUTXO(c: Commitment) returns (r: Result<Coin>)
      requires Valid()
      modifies this, leafSet
      ensures Valid()
      ensures match Spend(old(Content()), c)
              case Ok((after, coin)) => r == Ok(coin) && Content() == after
              case Err(e) => r == Err(e) && Content() == old(Content())
      ensures old(Once()) ==> Once()
    {
      hide *;
      SpendIs(Content(), c);
      Parts();
      Roles();
      assert allocated(base.Repr()) && allocated(leafSet.Repr) && allocated(kernelMMR.Repr) && allocated(outputMMR.Repr);
      var utxos := GetUTXOs(c);
      FromParts();
      if utxos == [] || !leafSet.Contains(utxos[|utxos| - 1].leafIdx) {
        return Err(UtxoMissing);
      }
      leafSet.Remove(utxos[|utxos| - 1].leafIdx);
      FromParts();
      Record(c, None);
      r := Ok(utxos[|utxos| - 1]);
    }

    // ---------- blocks ----------

    method AddKernels(kernels: seq<Bytes>)
      requires Valid() && |Content().kernels| + |kernels| <= MAX_LEAVES
      modifies kernelMMR
      ensures Valid() && Content() == old(Content()).(kernels := old(Content()).kernels + kernels) && Once() == old(Once())
    {
      hide Valid, Content, Layout, Core, ICoinsView.PartsValid, ICoinsView.Valid, MMRCache.Valid, LeafSetCache.Valid, LeavesOf;
      Parts();
      Roles();
      assert allocated(base.Repr()) && allocated(leafSet.Repr) && allocated(kernelMMR.Repr) && allocated(outputMMR.Repr);
      var i := 0;
      while i < |kernels|
        invariant 0 <= i <= |kernels| && kernelMMR.Valid()
        invariant kernelMMR.Leaves == old(kernelMMR.Leaves) + kernels[..i]
      {
        var leafIdx := kernelMMR.AddLeaf(kernels[i]);
        assert kernels[..i + 1] == kernels[..i] + [kernels[i]];
        i := i + 1;
      }
      assert kernels[..i] == kernels;
      FromParts();
    }

    method SpendInputs(inputs: seq<Commitment>) returns (r: Result<seq<Coin>>)
      requires Valid()
      modifies this, leafSet
      ensures Valid()
      ensures match SpendAll(old(Content()), inputs)
              case Ok((after, coins)) => r == Ok(coins) && Content() == after
              case Err(e) => r == Err(e)
      ensures old(Once()) ==> Once()
    {
      hide *;
      var coinsSpent := [];
      ghost var start := Content();
      var i := 0;
      assert inputs[0..] == inputs;
      SpendAllStart(Content(), inputs);
      while i < |inputs|
        invariant 0 <= i <= |inputs| && Valid()
        invariant old(Once()) ==> Once()
        invariant SpendAll(start, inputs) == SpentBefore(coinsSpent, SpendAll(Content(), inputs[i..]))
      {
        assert inputs[i..][0] == inputs[i] && inputs[i..][1..] == inputs[i + 1..];
        ghost var before := Content();
        SpendAllStep(before, inputs[i..], coinsSpent);
        var spent := SpendUTXO(inputs[i]);
        if spent.Err? {
          return Err(spent.error);
        }
        coinsSpent := coinsSpent + [spent.value];
        i := i + 1;
      }
      assert inputs[i..] == [];
      SpendAllEnd(Content(), coinsSpent);
      r := Ok(coinsSpent);
    }

    method AddOutputs(height: nat, outputs: seq<Output>) returns (coinsAdded: seq<Commitment>)
      requires Valid() && |Content().outputs| + |outputs| <= MAX_LEAVES
      modifies this, leafSet, outputMMR
      ensures Valid() && Content() == AddAll(old(Content()), height, outputs)
      ensures old(Once()) && Unique(Content().coins) ==> Once()
      ensures coinsAdded == Commitments(outputs)
    {
      hide *;
      coinsAdded := [];
      ghost var start := Content();
      var i := 0;
      assert outputs[0..] == outputs;
      while i < |outputs|
        invariant 0 <= i <= |outputs| && Valid()
        invariant |Content().outputs| + |outputs| - i <= MAX_LEAVES
        invariant AddAll(start, height, outputs) == AddAll(Content(), height, outputs[i..])
        invariant old(Once()) && Unique(AddAll(start, height, outputs).coins) ==> Once()
        invariant |coinsAdded| == i && forall j :: 0 <= j < i ==> coinsAdded[j] == outputs[j].commitment
      {
        assert outputs[i..][0] == outputs[i] && outputs[i..][1..] == outputs[i + 1..];
        AddAllStep(Content(), height, outputs[i..]);
        if Unique(AddAll(start, height, outputs).coins) {
          AddAllUnique(AddOne(Content(), height, outputs[i]), height, outputs[i + 1..]);
        }
        AddUTXO(height, outputs[i]);
        coinsAdded := coinsAdded + [outputs[i].commitment];
        i := i + 1;
      }
      assert outputs[i..] == [];
      AddAllEnd(Content(), height);
    }

    /** Leaves a part of its changes in this cache, but none in the base, when it fails. */
    method ApplyBlock(block: Block, sumsBalance: bool) returns (r: Result<BlockUndo>)
      requires Valid() && Content().next <= MAX_LEAVES
      requires |Content().kernels| + |block.body.kernels| <= MAX_LEAVES
      requires |Content().outputs| + |block.body.outputs| <= MAX_LEAVES
      modifies this, leafSet, kernelMMR, outputMMR
      ensures Valid()
      ensures match Apply(old(Content()), block, sumsBalance)
              case Ok((after, undo)) => r == Ok(undo) && Content() == after
              case Err(e) => r == Err(e)
      ensures r.Ok? ==>
                && block.header.kernelRoot == MmrRoot(Content().kernels) && block.header.numKernels == |Content().kernels|
                && block.header.outputRoot == MmrRoot(Content().outputs) && block.header.numTXOs == |Content().outputs|
                && block.header.leafsetRoot == LeafsetRoot(Content().unspent, Content().next)
      ensures r.Ok? && old(Once()) && Unique(Content().coins) ==> Once()
    {
      hide *;
      ghost var start := Content();
      ApplyIs(start, block, sumsBalance);
      var previous := GetBestHeader();
      SetBestHeader(Some(block.header));
      if !sumsBalance {
        return Err(BlockSums);
      }
      AddKernels(block.body.kernels);
      ghost var st1 := Content();
      var spent := SpendInputs(block.body.inputs);
      if spent.Err? {
        return Err(spent.error);
      }
      SpentAddedNext(st1, block.body.inputs, block.header.height, block.body.outputs);
      var coinsAdded := AddOutputs(block.header.height, block.body.outputs);
      BoundFits(Content().next);
      MatchesIff(block.header, Content());
      var valid := ValidateMMRs(block.header);
      if !valid {
        return Err(MmrMismatch);
      }
      r := Ok(BlockUndo(previous, spent.value, coinsAdded));
    }

    function GetBestHeader(): (h: Option<Header>)
      requires Total(leafSet.Bytes)
      reads this, leafSet, kernelMMR, outputMMR
      ensures h == Content().header
    {
      header
    }

    method ValidateMMRs(header: Header) returns (ok: bool)
      requires Valid() && Content().next + 7 < U64
      ensures Valid() && Content() == old(Content())
      ensures ok <==>
                && header.kernelRoot == MmrRoot(Content().kernels) && header.numKernels == |Content().kernels|
                && header.outputRoot == MmrRoot(Content().outputs) && header.numTXOs == |Content().outputs|
                && header.leafsetRoot == LeafsetRoot(Content().unspent, Content().next)
    {
      hide CoinsViewCache.Valid, MmrRoot, LeafsetRoot;
      assert CachedView(this).Valid();
      assert allocated(CachedView(this).Repr());
      ok := CachedView(this).ValidateMMRs(header);
    }

    method SetBestHeader(newHeader: Option<Header>)
      requires Valid()
      modifies this`header
      ensures Valid() && Content() == old(Content()).(header := newHeader) && Once() == old(Once())
    {
      hide Valid, Content, Layout, Core, ICoinsView.PartsValid, ICoinsView.Valid, MMRCache.Valid, LeafSetCache.Valid, LeavesOf;
      Parts();
      CoreParts();
      Roles();
      assert allocated(base.Repr()) && allocated(leafSet.Repr) && allocated(kernelMMR.Repr) && allocated(outputMMR.Repr);
      header := newHeader;
      CoreParts();
      FromParts();
    }

    /** The block that spends and creates what the given body does, built in this cache. */
    method BuildNextBlock(height: nat, body: Body) returns (r: Result<Block>)
      requires Valid() && Content().next <= MAX_LEAVES
      requires |Content().kernels| + |body.kernels| <= MAX_LEAVES
      requires |Content().outputs| + |body.outputs| <= MAX_LEAVES
      modifies this, leafSet, kernelMMR, outputMMR
      ensures Valid()
      ensures match Build(old(Content()), height, body)
              case Ok((after, block)) => r == Ok(block) && Content() == after
              case Err(e) => r == Err(e)
      ensures r.Ok? ==> var h := r.value.header;
                && r.value.body == body && h.height == height
                && h.kernelRoot == MmrRoot(Content().kernels) && h.numKernels == |Content().kernels|
                && h.outputRoot == MmrRoot(Content().outputs) && h.numTXOs == |Content().outputs|
                && h.leafsetRoot == LeafsetRoot(Content().unspent, Content().next)
      ensures r.Ok? ==> Content().kernels == old(Content()).kernels + body.kernels
      ensures r.Ok? ==> Content().outputs == old(Content()).outputs + Ids(body.outputs)
    {
      hide *;
      BuildIs(Content(), height, body);
      ghost var start := Content();
      AddKernels(body.kernels);
      var added := AddOutputs(height, body.outputs);
      AddedSpentNext(start.(kernels := start.kernels + body.kernels), height, body.outputs, body.inputs);
      var spent := SpendInputs(body.inputs);
      if spent.Err? {
        return Err(spent.error);
      }
      BoundFits(Content().next);
      var header := MakeHeader(height);
      r := Ok(Block(header, body));
    }

    method RemoveCoins(coinsAdded: seq<Commitment>)
      requires Valid() && Covers(Content().coins, coinsAdded)
      modifies this`updates, this`Coins
      ensures Valid() && Content() == old(Content()).(coins := PopAll(old(Content()).coins, coinsAdded))
      ensures old(Once()) ==> Once()
    {
      hide *;
      ghost var start := Content();
      var i := 0;
      assert coinsAdded[0..] == coinsAdded;
      while i < |coinsAdded|
        invariant 0 <= i <= |coinsAdded| && Valid()
        invariant Content() == start.(coins := Content().coins)
        invariant old(Once()) ==> Once()
        invariant PopAll(start.coins, coinsAdded) == PopAll(Content().coins, coinsAdded[i..])
        invariant Covers(Content().coins, coinsAdded[i..])
      {
        var c := coinsAdded[i];
        assert coinsAdded[i..][0] == c && coinsAdded[i..][1..] == coinsAdded[i + 1..];
        ghost var before := Content().coins;
        PopAllStep(before, coinsAdded[i..]);
        CoinsAre();
        Record(c, None);
        i := i + 1;
      }
      assert coinsAdded[i..] == [];
      PopAllEnd(Content().coins);
    }

    method RestoreCoins(coinsSpent: seq<Coin>) returns (leavesToAdd: seq<nat>)
      requires Valid()
      modifies this`updates, this`Coins
      ensures leavesToAdd == LeavesOfCoins(coinsSpent)
      ensures Valid() && Content() == old(Content()).(coins := PushAll(old(Content()).coins, coinsSpent))
      ensures old(Once()) && Unique(Content().coins) ==> Once()
    {
      hide *;
      leavesToAdd := [];
      ghost var start := Content();
      var i := 0;
      assert coinsSpent[0..] == coinsSpent;
      while i < |coinsSpent|
        invariant 0 <= i <= |coinsSpent| && Valid()
        invariant Content() == start.(coins := Content().coins)
        invariant old(Once()) && Unique(PushAll(start.coins, coinsSpent)) ==> Once()
        invariant PushAll(start.coins, coinsSpent) == PushAll(Content().coins, coinsSpent[i..])
        invariant |leavesToAdd| == i && forall j :: 0 <= j < i ==> leavesToAdd[j] == coinsSpent[j].leafIdx
      {
        var coin := coinsSpent[i];
        assert coinsSpent[i..][0] == coin && coinsSpent[i..][1..] == coinsSpent[i + 1..];
        PushAllStep(Content().coins, coinsSpent[i..]);
        CoinsAre();
        PushStepUnique(Content().coins, coinsSpent[i..]);
        leavesToAdd := leavesToAdd + [coin.leafIdx];
        Record(coin.output.commitment, Some(coin));
        i := i + 1;
      }
      assert coinsSpent[i..] == [];
      PushAllEnd(Content().coins);
    }

    lemma OnceIs()
      ensures Once() <==> CoinUpdates.Once(Coins, updates)
    {
    }

    lemma CoinsAre()
      requires Valid()
      ensures Content().coins == Coins
    {
    }

    method RewindTo(numTXOs: nat, numKernels: nat, leavesToAdd: seq<nat>)
      requires Valid() && numTXOs <= MAX_LEAVES && numKernels <= MAX_LEAVES
      requires forall j :: 0 <= j < |leavesToAdd| ==> leavesToAdd[j] + 1 < U64
      modifies leafSet, kernelMMR, outputMMR
      ensures Valid() && Once() == old(Once())
      ensures Content() == old(Content()).(
                unspent := RewoundLeaves(old(Content()).unspent, leavesToAdd, numTXOs), next := numTXOs,
                kernels := FirstN(old(Content()).kernels, numKernels), outputs := FirstN(old(Content()).outputs, numTXOs))
    {
      hide Valid, Content, Layout, Core, ICoinsView.PartsValid, ICoinsView.Valid, MMRCache.Valid, LeafSetCache.Valid, LeavesOf;
      hide RewoundLeaves;
      Parts();
      Roles();
      assert allocated(base.Repr()) && allocated(leafSet.Repr) && allocated(kernelMMR.Repr) && allocated(outputMMR.Repr);
      leafSet.Rewind(numTXOs, leavesToAdd);
      kernelMMR.Rewind(numKernels);
      outputMMR.Rewind(numTXOs);
      FromParts();
    }

    /** False when the rewound structures do not match the previous header, an exception in the source. */
    method UndoBlock(undo: BlockUndo) returns (ok: bool)
      requires Valid() && UndoFits(Content().coins, undo)
      requires undo.previous.Some? ==> undo.previous.value.numTXOs <= MAX_LEAVES && undo.previous.value.numKernels <= MAX_LEAVES
      requires forall j :: 0 <= j < |undo.coinsSpent| ==> undo.coinsSpent[j].leafIdx + 1 < U64
      modifies this, leafSet, kernelMMR, outputMMR
      ensures Valid()
      ensures match Undo(old(Content()), undo)
              case Ok(after) => ok && Content() == after
              case Err(e) => !ok
      ensures ok && undo.previous.Some? ==> var h := undo.previous.value;
                && h.kernelRoot == MmrRoot(Content().kernels) && h.numKernels == |Content().kernels|
                && h.outputRoot == MmrRoot(Content().outputs) && h.numTXOs == |Content().outputs|
                && h.leafsetRoot == LeafsetRoot(Content().unspent, Content().next)
      ensures ok && old(Once()) && Unique(Content().coins) ==> Once()
    {
      hide *;
      UndoIs(Content(), undo);
      RemoveCoins(undo.coinsAdded);
      var leavesToAdd := RestoreCoins(undo.coinsSpent);
      SpentLeaves(undo.coinsSpent);
      if undo.previous == None {
        RewindTo(0, 0, []);
        SetBestHeader(None);
        return true;
      }
      var header := undo.previous.value;
      RewindTo(header.numTXOs, header.numKernels, leavesToAdd);
      SetBestHeader(Some(header));
      BoundFits(Content().next);
      MatchesIff(header, Content());
      ok := ValidateMMRs(header);
    }

    // ---------- flushing ----------

    /** The actions of one commitment, on top of this cache's own. */
    method RecordAll(c: Commitment, actions: seq<CoinAction>)
      requires Valid() && Replayable(Content().coins[c], actions) && AllFiled(actions, c)
      modifies this`updates, this`Coins
      ensures Valid()
      ensures Content() == old(Content()).(coins := old(Content()).coins[c := Replay(old(Content()).coins[c], actions)])
      ensures forall d: Commitment :: GetActions(updates, d) == GetActions(old(updates), d) + if d == c then actions else []
    {
      hide Valid, Content, Layout, Core, ICoinsView.PartsValid, ICoinsView.Valid, MMRCache.Valid, LeafSetCache.Valid, LeavesOf;
      hide Replay, Replayable, Once, GetActions, AddAction;
      ghost var start := Content();
      var i := 0;
      assert actions[..0] == [];
      ReplayNothing(start.coins[c]);
      while i < |actions|
        invariant 0 <= i <= |actions| && Valid()
        invariant Content() == start.(coins := start.coins[c := Replay(start.coins[c], actions[..i])])
        invariant forall d: Commitment ::
                    GetActions(updates, d) == GetActions(old(updates), d) + if d == c then actions[..i] else []
      {
        ReplayablePrefix(start.coins[c], actions, i);
        ReplayStep(start.coins[c], actions[..i], actions[i]);
        assert actions[..i + 1] == actions[..i] + [actions[i]];
        CoinsAre();
        Record(c, actions[i]);
        i := i + 1;
      }
      assert actions[..i] == actions;
    }

    method WriteBatch(newUpdates: Updates, newHeader: Option<Header>)
      requires Valid() && CanReplay(Content().coins, newUpdates)
      modifies this`updates, this`Coins, this`header
      ensures Valid() && Content() == old(Content()).(header := newHeader, coins := Content().coins)
      ensures Replays(old(Content()).coins, newUpdates, Content().coins)
      ensures old(Once()) && CoinUpdates.Once(Content().coins, newUpdates) ==> Once()
    {
      hide *;
      CoinsAre();
      OnceIs();
      ghost var before := Content().coins;
      ghost var below := updates;
      ReplayedStart(before, newUpdates);
      AppendStart(below, newUpdates);
      SetBestHeader(newHeader);
      var todo := newUpdates.Keys;
      while todo != {}
        invariant todo <= newUpdates.Keys && Valid()
        invariant Content() == old(Content()).(header := newHeader, coins := Content().coins)
        invariant ReplayedBut(before, newUpdates, todo, Content().coins)
        invariant AppendedBut(below, newUpdates, todo, updates)
        decreases todo
      {
        var c :| c in todo;
        ReplayedStep(before, newUpdates, todo, Content().coins, c);
        ghost var now := updates;
        RecordAll(c, newUpdates[c]);
        AppendStep(below, newUpdates, todo, now, c, updates);
        todo := todo - {c};
      }
      ReplayedEnd(before, newUpdates, Content().coins);
      CoinsAre();
      OnceIs();
      if CoinUpdates.Once(before, below) && CoinUpdates.Once(Content().coins, newUpdates) {
        OnceOver(before, below, Content().coins, newUpdates, updates);
      }
    }

    /** What flushing the leaf set and the MMRs does not touch. */
    lemma FlushRoles()
      requires Layout() && base.CoreValid() && base.PartsValid()
      ensures leafSet.base == base.GetLeafSet() && kernelMMR.base == base.GetKernelMMR() && outputMMR.base == base.GetOutputPMMR()
      ensures {leafSet, base.GetLeafSet().Obj()} !! kernelMMR.Repr + outputMMR.Repr
      ensures {kernelMMR} + base.GetKernelMMR().Own() !! leafSet.Repr + outputMMR.Repr
      ensures {outputMMR} + base.GetOutputPMMR().Own() !! leafSet.Repr + kernelMMR.Repr
      ensures {leafSet, base.GetLeafSet().Obj(), kernelMMR, outputMMR} + base.GetKernelMMR().Own() + base.GetOutputPMMR().Own()
           !! {this, base.Obj()} + base.LowerRepr()
      ensures leafSet in leafSet.Repr && kernelMMR in kernelMMR.Repr && outputMMR in outputMMR.Repr
      ensures base.GetLeafSet().Obj() in leafSet.Repr
      ensures base.GetKernelMMR().Obj() in kernelMMR.Repr && base.GetKernelMMR().Own() <= kernelMMR.Repr
      ensures base.GetOutputPMMR().Obj() in outputMMR.Repr && base.GetOutputPMMR().Own() <= outputMMR.Repr
    {
    }

    method FlushParts()
      requires Layout() && base.Valid() && leafSet.Valid() && kernelMMR.Valid() && outputMMR.Valid()
      modifies leafSet, kernelMMR, outputMMR
      modifies base.GetLeafSet().Obj(), base.GetKernelMMR().Own(), base.GetOutputPMMR().Own()
      ensures base.Valid() && leafSet.Valid() && kernelMMR.Valid() && outputMMR.Valid()
      ensures Total(base.GetLeafSet().Bytes())
      ensures base.Coins() == old(base.Coins()) && base.GetBestHeader() == old(base.GetBestHeader()) && unchanged(this)
      ensures base.Once() == old(base.Once())
      ensures leafSet.Bytes == old(leafSet.Bytes) == base.GetLeafSet().Bytes()
      ensures leafSet.nextLeafIdx == old(leafSet.nextLeafIdx) == base.GetLeafSet().GetNextLeafIdx()
      ensures kernelMMR.Leaves == old(kernelMMR.Leaves) == base.GetKernelMMR().Leaves()
      ensures outputMMR.Leaves == old(outputMMR.Leaves) == base.GetOutputPMMR().Leaves()
    {
      hide *;
      base.ValidIsCoreAndParts();
      FlushRoles();
      assert allocated(base.LowerRepr()) && allocated(base.Obj());
      assert allocated(base.Repr()) && allocated(leafSet.Repr) && allocated(kernelMMR.Repr) && allocated(outputMMR.Repr);
      leafSet.Flush();
      assert base.CoreValid();
      kernelMMR.Flush();
      outputMMR.Flush();
      LeafSetBaseValid(leafSet);
      BaseIsValid(kernelMMR);
      BaseIsValid(outputMMR);
      base.ArePartsValid();
      base.ValidIsCoreAndParts();
    }

    /**
      Gives the base everything this cache stands for, unless there is no best header. Over the database, the coins
      reach it only when the batch is committed; until then they are read as they were.
     */
    method Flush(batch: Batch?)
      requires Valid()
      requires header.Some? && base.OnDB? ==> batch != null
      requires batch != null ==> batch !in CachedView(this).Repr()
      modifies this, leafSet, kernelMMR, outputMMR
      modifies base.Obj(), base.GetLeafSet().Obj(), base.GetKernelMMR().Own(), base.GetOutputPMMR().Own()
      modifies if batch == null then {} else {batch}
      ensures Valid()
      ensures old(header).None? ==>
                && Content() == old(Content()) && base.Content() == old(base.Content())
                && updates == old(updates) && base.Once() == old(base.Once())
      ensures old(header).Some? ==> updates == map[] && base.Content() == Content()
      ensures old(header).Some? && base.CachedView? ==> Content() == old(Content())
      ensures old(header).Some? && base.CachedView? && old(base.Once()) && old(Once()) ==> base.Once()
      ensures old(header).Some? && base.OnDB? ==>
                && Content() == old(Content()).(coins := old(base.Coins()))
                && BatchHolds(batch.ops, old(batch.ops), old(updates))
    {
      hide *;
      if header == None {
        return;
      }
      Parts();
      CoreParts();
      base.ValidIsCoreAndParts();
      WriteRoles();
      FlushRoles();
      FlushUpdates(batch);
      FlushParts();
      base.ValidIsCoreAndParts();
      base.ContentParts();
      ClearUpdates();
    }

    method ClearUpdates()
      requires Layout() && base.Valid() && Total(base.GetLeafSet().Bytes()) && leafSet.Valid() && kernelMMR.Valid() && outputMMR.Valid()
      modifies this`updates, this`Coins
      ensures Valid() && base.Valid() && updates == map[]
      ensures Total(base.GetLeafSet().Bytes()) && base.Content() == old(base.Content()) && base.Once() == old(base.Once())
      ensures Content() == State(old(base.Coins()), LeavesOf(leafSet.Bytes), leafSet.nextLeafIdx, kernelMMR.Leaves, outputMMR.Leaves, header)
    {
      hide *;
      Roles();
      assert allocated(base.Repr()) && allocated(leafSet.Repr) && allocated(kernelMMR.Repr) && allocated(outputMMR.Repr);
      updates := map[];
      Coins := base.Coins();
      ReplaysNothing(Coins);
      CoreParts();
      FromParts();
    }

    /**
      libmw::node::FlushCache and the commit of its batch, over the database. The leaf set, the MMRs and the header
      always reach the database view as they are. A stack of coins does exactly when one coin is left after a
      push, or none after a spend.
     */
    method FlushAndCommit(batch: Batch)
      requires Valid() && header.Some? && base.OnDB?
      requires batch !in CachedView(this).Repr() && batch.ops == map[]
      modifies this, leafSet, kernelMMR, outputMMR, batch
      modifies base.Obj(), base.GetLeafSet().Obj(), base.GetKernelMMR().Own(), base.GetOutputPMMR().Own()
      ensures Valid() && updates == map[]
      ensures base.Content() == Content() == old(Content()).(coins := Content().coins)
      ensures old(Once()) ==> Content() == old(Content()) && Once()
      ensures forall c: Commitment :: Content().coins[c] == Committed(old(base.Coins())[c], GetActions(old(updates), c))
      ensures forall c: Commitment :: Content().coins[c] == old(Content()).coins[c] <==> Keeps(old(Content()).coins[c], GetActions(old(updates), c))
    {
      hide *;
      ghost var before, below, actions := Content(), base.Coins(), updates;
      CoinsAre();
      OnceIs();
      Parts();
      CoreParts();
      Flush(batch);
      Parts();
      CoreParts();
      base.ContentParts();
      OnceIs();
      CommitBatch(batch, below, actions, before.coins);
      if CoinUpdates.Once(before.coins, actions) {
        OnceCommitted(before.coins, actions, Content().coins);
        OnceUnique(before.coins, actions);
        CleanOnce();
      }
    }

    lemma OnceContent()
      requires Valid() && Once()
      ensures Unique(Content().coins)
    {
      hide Valid;
      CoinsAre();
      OnceUnique(Coins, updates);
    }

    /** A cache without pending updates. */
    lemma CleanOnce()
      requires Valid() && updates == map[] && Unique(Content().coins)
      ensures Once()
    {
      hide Valid;
      CoinsAre();
      OnceStart(Coins);
    }

    method CommitBatch(batch: Batch, ghost below: Coins, ghost actions: Updates, ghost before: Coins)
      requires Valid() && base.OnDB? && updates == map[] && batch !in CachedView(this).Repr()
      requires TotalCoins(below) && base.Coins() == below && BatchHolds(batch.ops, map[], actions)
      requires Replays(below, actions, before)
      modifies base.Obj(), this`updates, this`Coins
      ensures Valid() && updates == map[] && base.Valid() && Total(base.GetLeafSet().Bytes())
      ensures Content() == old(Content()).(coins := Content().coins)
      ensures base.Content() == old(base.Content()).(coins := Content().coins)
      ensures forall c: Commitment :: Content().coins[c] == Committed(below[c], GetActions(actions, c))
      ensures forall c: Commitment :: Content().coins[c] == before[c] <==> Keeps(before[c], GetActions(actions, c))
    {
      hide *;
      Parts();
      CoreParts();
      Roles();
      WriteRoles();
      base.ValidIsCoreAndParts();
      base.ContentParts();
      base.OfDB();
      assert allocated(base.Repr()) && allocated(leafSet.Repr) && allocated(kernelMMR.Repr) && allocated(outputMMR.Repr);
      assert allocated(base.GetLeafSet().Repr()) && allocated(base.GetKernelMMR().Repr()) && allocated(base.GetOutputPMMR().Repr());
      ghost var before' := base.db.db;
      base.db.Commit(batch);
      assert base.PartsValid();
      base.OfDB();
      base.ValidIsCoreAndParts();
      CommittedCoins(before', base.db.db, batch.ops, actions, before);
      StoredCoinsAre(before', base.db.db);
      base.ContentParts();
      ClearUpdates();
    }

    method FlushUpdates(batch: Batch?)
      requires Valid()
      requires base.OnDB? ==> batch != null
      requires batch != null ==> batch !in CachedView(this).Repr()
      modifies base.Obj(), if batch == null then {} else {batch}
      ensures Layout() && base.Valid() && leafSet.Valid() && kernelMMR.Valid() && outputMMR.Valid()
      ensures unchanged(this, leafSet, kernelMMR, outputMMR)
      ensures base.GetBestHeader() == header
      ensures base.CachedView? ==> base.Coins() == Coins
      ensures base.CachedView? && old(base.Once()) && Once() ==> base.Once()
      ensures base.OnDB? ==> base.Coins() == old(base.Coins()) && BatchHolds(batch.ops, old(batch.ops), updates)
    {
      hide *;
      ghost var before := base.Coins();
      Parts();
      CoreParts();
      CanReplayUpdates();
      WriteRoles();
      assert allocated(base.Repr()) && allocated(leafSet.Repr) && allocated(kernelMMR.Repr) && allocated(outputMMR.Repr);
      OnceIs();
      base.WriteBatch(batch, updates, header);
      if base.CachedView? { ReplaysUnique(before, updates, base.Coins(), Coins); }
    }

    lemma CanReplayUpdates()
      requires Replays(base.Coins(), updates, Coins)
      ensures CanReplay(base.Coins(), updates)
    {
    }

    /** Writing to the base object does not touch the caches of this layer. */
    lemma WriteRoles()
      requires Layout()
      ensures base.Obj() !in leafSet.Repr && base.Obj() !in kernelMMR.Repr && base.Obj() !in outputMMR.Repr
      ensures base.Obj() != this && leafSet in leafSet.Repr && kernelMMR in kernelMMR.Repr && outputMMR in outputMMR.Repr
      ensures base.GetLeafSet().Repr() <= leafSet.Repr && base.GetLeafSet().Obj() in leafSet.Repr
      ensures base.GetKernelMMR().Repr() <= kernelMMR.Repr && base.GetKernelMMR().Obj() in kernelMMR.Repr
      ensures base.GetOutputPMMR().Repr() <= outputMMR.Repr && base.GetOutputPMMR().Obj() in outputMMR.Repr
      ensures leafSet.Repr <= CachedView(this).Repr() && kernelMMR.Repr <= CachedView(this).Repr()
           && outputMMR.Repr <= CachedView(this).Repr() && this in CachedView(this).Repr()
    {
    }

    method MakeHeader(height: nat) returns (header: Header)
      requires Valid() && Content().next + 7 < U64
      ensures Valid() && Content() == old(Content())
      ensures header == HeaderFor(height, Content()) && header.height == height
      ensures
        && header.kernelRoot == MmrRoot(Content().kernels) && header.numKernels == |Content().kernels|
        && header.outputRoot == MmrRoot(Content().outputs) && header.numTXOs == |Content().outputs|
        && header.leafsetRoot == LeafsetRoot(Content().unspent, Content().next)
    {
      hide IMMR.Valid, ILeafSet.Coherent, MMRCache.Valid, LeafSetCache.Coherent, LeavesOf, Layout, Core, MmrRoot, LeafsetRoot;
      Roles();
      assert allocated(base.Repr()) && allocated(leafSet.Repr) && allocated(kernelMMR.Repr) && allocated(outputMMR.Repr);
      var outputSize := CachedView(this).GetOutputPMMR().GetNextLeafIdx();
      var kernelSize := CachedView(this).GetKernelMMR().GetNextLeafIdx();
      var outputRoot := CachedView(this).GetOutputPMMR().Root();
      var kernelRoot := CachedView(this).GetKernelMMR().Root();
      var leafsetRoot := CachedView(this).GetLeafSet().Root();
      header := Header(height, outputRoot, kernelRoot, leafsetRoot, outputSize, kernelSize);
    }
  }

  lemma AddAllStep(st: State, height: nat, outputs: seq<Output>)
    requires TotalCoins(st.coins) && outputs != []
    ensures AddAll(st, height, outputs) == AddAll(AddOne(st, height, outputs[0]), height, outputs[1..])
    ensures |AddOne(st, height, outputs[0]).outputs| == |st.outputs| + 1
  {
  }

  /** The steps of ApplyBlock. */
  lemma ApplyIs(st: State, block: Block, sums: bool)
    requires TotalCoins(st.coins)
    ensures !sums ==> Apply(st, block, sums) == Err(BlockSums)
    ensures var st1 := st.(header := Some(block.header), kernels := st.kernels + block.body.kernels);
      sums ==>
        match SpendAll(st1, block.body.inputs)
        case Err(e) => Apply(st, block, sums) == Err(e)
        case Ok((st2, spent)) =>
          var st3 := AddAll(st2, block.header.height, block.body.outputs);
          Apply(st, block, sums) == if Matches(block.header, st3)
            then Ok((st3, BlockUndo(st.header, spent, Commitments(block.body.outputs)))) else Err(MmrMismatch)
  {
    hide SpendAll, AddAll, Matches;
  }

  /** The steps of BuildNextBlock. */
  lemma BuildIs(st: State, height: nat, body: Body)
    requires TotalCoins(st.coins)
    ensures var st2 := AddAll(st.(kernels := st.kernels + body.kernels), height, body.outputs);
      var r := SpendAll(st2, body.inputs);
      && st2.kernels == st.kernels + body.kernels && st2.outputs == st.outputs + Ids(body.outputs)
      && (r.Err? ==> Build(st, height, body) == Err(r.error))
      && (r.Ok? ==> var st3 := r.value.0;
            && Build(st, height, body) == Ok((st3, Block(HeaderFor(height, st3), body)))
            && st3.kernels == st2.kernels && st3.outputs == st2.outputs)
  {
    hide SpendAll, AddAll, HeaderFor;
    var st1 := st.(kernels := st.kernels + body.kernels);
    AddAllKeeps(st1, height, body.outputs);
    AddAllIds(st1, height, body.outputs);
    if SpendAll(AddAll(st1, height, body.outputs), body.inputs).Ok? { SpendAllKeeps(AddAll(st1, height, body.outputs), body.inputs); }
  }

  lemma {:induction false} AddAllIds(st: State, height: nat, outputs: seq<Output>)
    requires TotalCoins(st.coins)
    ensures AddAll(st, height, outputs).outputs == st.outputs + Ids(outputs)
    decreases |outputs|
  {
    hide *;
    if outputs == [] {
      AddAllEnd(st, height);
      assert st.outputs + [] == st.outputs;
    } else {
      AddAllStep(st, height, outputs);
      AddOneIs(st, height, outputs[0]);
      AddAllIds(AddOne(st, height, outputs[0]), height, outputs[1..]);
      IdsStep(outputs);
      assert (st.outputs + [outputs[0].id]) + Ids(outputs[1..]) == st.outputs + ([outputs[0].id] + Ids(outputs[1..]));
    }
  }

  /** The steps of UndoBlock. */
  lemma UndoIs(st: State, undo: BlockUndo)
    requires TotalCoins(st.coins)
    ensures UndoFits(st.coins, undo) <==> Covers(st.coins, undo.coinsAdded)
    ensures var coins := PushAll(PopAll(st.coins, undo.coinsAdded), undo.coinsSpent);
      && (undo.previous.None? ==>
            Undo(st, undo) == Ok(State(coins, RewoundLeaves(st.unspent, [], 0), 0, FirstN(st.kernels, 0), FirstN(st.outputs, 0), None)))
      && (undo.previous.Some? ==>
            var h := undo.previous.value;
            var after := State(coins, RewoundLeaves(st.unspent, LeavesOfCoins(undo.coinsSpent), h.numTXOs), h.numTXOs,
                               FirstN(st.kernels, h.numKernels), FirstN(st.outputs, h.numTXOs), Some(h));
            Undo(st, undo) == if Matches(h, after) then Ok(after) else Err(MmrMismatch))
  {
    hide PushAll, PopAll, RewoundLeaves, FirstN, Matches;
  }

  lemma BoundFits(next: nat)
    requires next <= MAX_LEAVES
    ensures next + 7 < U64
  {
  }

  lemma SpentLeaves(coins: seq<Coin>)
    ensures |LeavesOfCoins(coins)| == |coins|
    ensures forall j :: 0 <= j < |coins| ==> LeavesOfCoins(coins)[j] == coins[j].leafIdx
  {
  }

  /** Adding outputs moves the bound no further than the number of leaves. */
  lemma {:induction false} AddAllNext(st: State, height: nat, outputs: seq<Output>)
    requires TotalCoins(st.coins) && st.next <= MAX_LEAVES && |st.outputs| + |outputs| <= MAX_LEAVES
    ensures AddAll(st, height, outputs).next <= MAX_LEAVES
    decreases |outputs|
  {
    hide AddAll;
    if outputs == [] {
      AddAllEnd(st, height);
    } else {
      AddAllStep(st, height, outputs);
      AddAllNext(AddOne(st, height, outputs[0]), height, outputs[1..]);
    }
  }

  lemma SpentAddedNext(st: State, inputs: seq<Commitment>, height: nat, outputs: seq<Output>)
    requires TotalCoins(st.coins) && st.next <= MAX_LEAVES && |st.outputs| + |outputs| <= MAX_LEAVES
    requires SpendAll(st, inputs).Ok?
    ensures SpendAll(st, inputs).value.0.outputs == st.outputs
    ensures AddAll(SpendAll(st, inputs).value.0, height, outputs).next <= MAX_LEAVES
  {
    hide SpendAll, AddAll;
    SpendAllKeeps(st, inputs);
    AddAllNext(SpendAll(st, inputs).value.0, height, outputs);
  }

  lemma AddedSpentNext(st: State, height: nat, outputs: seq<Output>, inputs: seq<Commitment>)
    requires TotalCoins(st.coins) && st.next <= MAX_LEAVES && |st.outputs| + |outputs| <= MAX_LEAVES
    ensures SpendAll(AddAll(st, height, outputs), inputs).Ok? ==>
              SpendAll(AddAll(st, height, outputs), inputs).value.0.next <= MAX_LEAVES
  {
    hide SpendAll, AddAll;
    AddAllNext(st, height, outputs);
    if SpendAll(AddAll(st, height, outputs), inputs).Ok? { SpendAllKeeps(AddAll(st, height, outputs), inputs); }
  }

  lemma {:induction false} AddAllUnique(st: State, height: nat, outputs: seq<Output>)
    requires TotalCoins(st.coins) && Unique(AddAll(st, height, outputs).coins)
    ensures Unique(st.coins)
    decreases |outputs|
  {
    if outputs != [] { AddAllUnique(AddOne(st, height, outputs[0]), height, outputs[1..]); }
    forall c: Commitment | outputs != [] ensures |st.coins[c]| <= |AddOne(st, height, outputs[0]).coins[c]| {
    }
  }

  lemma PushStepUnique(coins: Coins, added: seq<Coin>)
    requires TotalCoins(coins) && added != []
    ensures var c := added[0].output.commitment;
      Unique(PushAll(coins, added)) ==> Unique(coins[c := Act(coins[c], Some(added[0]))])
  {
    var c := added[0].output.commitment;
    if Unique(PushAll(coins, added)) { PushAllUnique(coins[c := coins[c] + [added[0]]], added[1..]); }
  }

  lemma {:induction false} PushAllUnique(coins: Coins, added: seq<Coin>)
    requires TotalCoins(coins) && Unique(PushAll(coins, added))
    ensures Unique(coins)
    decreases |added|
  {
    if added != [] {
      var c := added[0].output.commitment;
      PushAllUnique(coins[c := coins[c] + [added[0]]], added[1..]);
      forall d: Commitment ensures |coins[d]| <= |coins[c := coins[c] + [added[0]]][d]| {
      }
    }
  }

  lemma AddAllEnd(st: State, height: nat)
    requires TotalCoins(st.coins)
    ensures AddAll(st, height, []) == st
  {
  }

  /** The result of the remaining spends, after some coins have been spent. */
  ghost function SpentBefore(coins: seq<Coin>, r: Result<(State, seq<Coin>)>): Result<(State, seq<Coin>)> {
    match r
    case Ok((after, rest)) => Ok((after, coins + rest))
    case Err(e) => Err(e)
  }

  /** Spend, as an action on the stack and a leaf to remove. */
  lemma SpendIs(st: State, c: Commitment)
    requires TotalCoins(st.coins)
    ensures var stack := st.coins[c];
      Spend(st, c)
        == if stack == [] || stack[|stack| - 1].leafIdx !in st.unspent then Err(UtxoMissing)
           else Ok((st.(coins := st.coins[c := Act(stack, None)], unspent := st.unspent - iset{stack[|stack| - 1].leafIdx}),
                    stack[|stack| - 1]))
  {
  }

  lemma PositionsFit(n: nat)
    requires n < MAX_LEAVES
    ensures n + 1 < U64
  {
  }

  lemma AddOneIs(st: State, height: nat, output: Output)
    requires TotalCoins(st.coins)
    ensures var coin := Coin(height, |st.outputs|, output); var c := output.commitment;
      AddOne(st, height, output)
        == State(st.coins[c := Act(st.coins[c], Some(coin))], st.unspent + iset{|st.outputs|},
                 if |st.outputs| >= st.next then |st.outputs| + 1 else st.next,
                 st.kernels, st.outputs + [output.id], st.header)
  {
  }

  lemma SpendAllStart(st: State, inputs: seq<Commitment>)
    requires TotalCoins(st.coins)
    ensures SpentBefore([], SpendAll(st, inputs)) == SpendAll(st, inputs)
  {
    assert SpendAll(st, inputs).Ok? ==> [] + SpendAll(st, inputs).value.1 == SpendAll(st, inputs).value.1;
  }

  lemma SpendAllStep(st: State, inputs: seq<Commitment>, coins: seq<Coin>)
    requires TotalCoins(st.coins) && inputs != []
    ensures match Spend(st, inputs[0])
            case Err(e) => SpentBefore(coins, SpendAll(st, inputs)) == Err(e)
            case Ok((st1, coin)) => SpentBefore(coins, SpendAll(st, inputs)) == SpentBefore(coins + [coin], SpendAll(st1, inputs[1..]))
  {
    if Spend(st, inputs[0]).Ok? {
      var (st1, coin) := Spend(st, inputs[0]).value;
      if SpendAll(st1, inputs[1..]).Ok? {
        var rest := SpendAll(st1, inputs[1..]).value.1;
        assert coins + ([coin] + rest) == coins + [coin] + rest;
      }
    }
  }

  lemma SpendAllEnd(st: State, coins: seq<Coin>)
    requires TotalCoins(st.coins)
    ensures SpentBefore(coins, SpendAll(st, [])) == Ok((st, coins))
  {
    assert coins + [] == coins;
  }

  lemma {:induction false} SpendAllKeeps(st: State, inputs: seq<Commitment>)
    requires TotalCoins(st.coins) && SpendAll(st, inputs).Ok?
    ensures SpendAll(st, inputs).value.0.outputs == st.outputs && SpendAll(st, inputs).value.0.kernels == st.kernels
    ensures SpendAll(st, inputs).value.0.header == st.header && SpendAll(st, inputs).value.0.next == st.next
    decreases |inputs|
  {
    if inputs != [] { SpendAllKeeps(Spend(st, inputs[0]).value.0, inputs[1..]); }
  }

  lemma PopAllStep(coins: Coins, spends: seq<Commitment>)
    requires TotalCoins(coins) && spends != []
    ensures PopAll(coins, spends) == PopAll(coins[spends[0] := Act(coins[spends[0]], None)], spends[1..])
    ensures Covers(coins, spends) ==>
              coins[spends[0]] != [] && Covers(coins[spends[0] := Act(coins[spends[0]], None)], spends[1..])
  {
    forall c: Commitment ensures multiset(spends)[c] == (if spends[0] == c then 1 else 0) + multiset(spends[1..])[c] {
      CountSplit(spends, c);
    }
  }

  lemma PopAllEnd(coins: Coins)
    requires TotalCoins(coins)
    ensures PopAll(coins, []) == coins
  {
  }

  lemma PushAllStep(coins: Coins, added: seq<Coin>)
    requires TotalCoins(coins) && added != []
    ensures var c := added[0].output.commitment;
      PushAll(coins, added) == PushAll(coins[c := Act(coins[c], Some(added[0]))], added[1..])
  {
  }

  lemma PushAllEnd(coins: Coins)
    requires TotalCoins(coins)
    ensures PushAll(coins, []) == coins
  {
  }
}
