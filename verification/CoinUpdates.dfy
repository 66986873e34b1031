/** mw::CoinsViewUpdates: the pushes and pops of coins a view has pending, and how the coin database takes them. */
module CoinUpdates {
  import opened Chain
  import opened Wrappers

  // ---------- CoinsViewUpdates ----------

  /** A coin to push, or none for a spend. */
  type CoinAction = Option<Coin>

  /** The actions of each commitment, oldest first. */
  type Updates = map<Commitment, seq<CoinAction>>

  function GetActions(updates: Updates, c: Commitment): seq<CoinAction> {
    if c in updates then updates[c] else []
  }

  function AddAction(updates: Updates, c: Commitment, action: CoinAction): (r: Updates)
    ensures forall d: Commitment :: GetActions(r, d) ==
              if d == c then GetActions(updates, c) + [action] else GetActions(updates, d)
  {
    updates[c := GetActions(updates, c) + [action]]
  }

  function Act(stack: seq<Coin>, action: CoinAction): seq<Coin> {
    match action
    case Some(coin) => stack + [coin]
    case None => Pop(stack)
  }

  /** The stack after a series of actions. */
  function Replay(stack: seq<Coin>, actions: seq<CoinAction>): seq<Coin> {
    if actions == [] then stack
    else Act(Replay(stack, actions[..|actions| - 1]), actions[|actions| - 1])
  }

  /** No action pops an empty stack. */
  predicate Replayable(stack: seq<Coin>, actions: seq<CoinAction>) {
    actions != [] ==>
      && Replayable(stack, actions[..|actions| - 1])
      && (actions[|actions| - 1].None? ==> Replay(stack, actions[..|actions| - 1]) != [])
  }

  lemma ReplayNothing(stack: seq<Coin>)
    ensures Replay(stack, []) == stack && Replayable(stack, [])
  {
  }

  lemma ReplayStep(stack: seq<Coin>, actions: seq<CoinAction>, action: CoinAction)
    ensures Replay(stack, actions + [action]) == Act(Replay(stack, actions), action)
    ensures Replayable(stack, actions + [action]) <==>
              Replayable(stack, actions) && (action.None? ==> Replay(stack, actions) != [])
  {
    assert (actions + [action])[..|actions|] == actions;
  }

  lemma {:induction false} ReplayConcat(stack: seq<Coin>, first: seq<CoinAction>, then_: seq<CoinAction>)
    ensures Replay(stack, first + then_) == Replay(Replay(stack, first), then_)
    ensures Replayable(stack, first) && Replayable(Replay(stack, first), then_) ==> Replayable(stack, first + then_)
  {
    if then_ == [] {
      assert first + then_ == first;
    } else {
      var init := then_[..|then_| - 1];
      var last := then_[|then_| - 1];
      ReplayConcat(stack, first, init);
      assert first + then_ == first + init + [last] && then_ == init + [last];
      ReplayStep(stack, first + init, last);
      ReplayStep(Replay(stack, first), init, last);
    }
  }

  lemma {:induction false} ReplayablePrefix(stack: seq<Coin>, actions: seq<CoinAction>, i: nat)
    requires Replayable(stack, actions) && i <= |actions|
    ensures Replayable(stack, actions[..i])
    ensures i < |actions| && actions[i].None? ==> Replay(stack, actions[..i]) != []
  {
    if i == |actions| {
      assert actions[..i] == actions;
    } else {
      var init := actions[..|actions| - 1];
      assert i < |init| ==> init[i] == actions[i];
      ReplayablePrefix(stack, init, i);
      assert init[..i] == actions[..i];
    }
  }

  /** The stacks of `coins` are those of `below` after the updates, which never pop an empty stack. */
  ghost predicate Replays(below: Coins, updates: Updates, coins: Coins)
    ensures Replays(below, updates, coins) ==> TotalCoins(coins) && TotalCoins(below)
  {
    && TotalCoins(below) && TotalCoins(coins)
    && (forall c: Commitment :: Replayable(below[c], GetActions(updates, c)))
    && (forall c: Commitment :: coins[c] == Replay(below[c], GetActions(updates, c)))
    && (forall c: Commitment :: AllFiled(GetActions(updates, c), c))
  }

  /** Every coin among the actions has the given commitment. */
  ghost predicate AllFiled(actions: seq<CoinAction>, c: Commitment) {
    forall i :: 0 <= i < |actions| && actions[i].Some? ==> actions[i].value.output.commitment == c
  }

  lemma ReplaysNothing(coins: Coins)
    requires TotalCoins(coins)
    ensures Replays(coins, map[], coins)
  {
  }

  lemma ReplaysAction(below: Coins, updates: Updates, coins: Coins, c: Commitment, action: CoinAction)
    requires Replays(below, updates, coins)
    requires if action.None? then coins[c] != [] else action.value.output.commitment == c
    ensures Replays(below, AddAction(updates, c, action), coins[c := Act(coins[c], action)])
  {
    hide Replay, Replayable, Act, AddAction;
    ReplayStep(below[c], GetActions(updates, c), action);
  }

  lemma ReplaysAt(below: Coins, updates: Updates, coins: Coins, c: Commitment)
    requires Replays(below, updates, coins)
    ensures Replayable(below[c], GetActions(updates, c)) && coins[c] == Replay(below[c], GetActions(updates, c))
  {
  }

  lemma ReplaysUnique(below: Coins, updates: Updates, a: Coins, b: Coins)
    requires Replays(below, updates, a) && Replays(below, updates, b)
    ensures a == b
  {
    assert forall c: Commitment :: a[c] == b[c];
  }

  ghost predicate CanReplay(coins: Coins, updates: Updates)
    requires TotalCoins(coins)
  {
    forall c: Commitment :: Replayable(coins[c], GetActions(updates, c)) && AllFiled(GetActions(updates, c), c)
  }

  /** The updates of all commitments but those to do have been replayed on `before`. */
  ghost predicate ReplayedBut(before: Coins, updates: Updates, todo: set<Commitment>, now: Coins)
    ensures ReplayedBut(before, updates, todo, now) ==> TotalCoins(now) && TotalCoins(before) && CanReplay(before, updates)
  {
    && TotalCoins(before) && TotalCoins(now) && CanReplay(before, updates)
    && forall c: Commitment ::
         now[c] == if c in todo then before[c] else Replay(before[c], GetActions(updates, c))
  }

  lemma ReplayedStart(before: Coins, updates: Updates)
    requires TotalCoins(before) && CanReplay(before, updates)
    ensures ReplayedBut(before, updates, updates.Keys, before)
  {
  }

  lemma ReplayedStep(before: Coins, updates: Updates, todo: set<Commitment>, now: Coins, c: Commitment)
    requires ReplayedBut(before, updates, todo, now) && c in todo && todo <= updates.Keys
    ensures now[c] == before[c] && Replayable(now[c], updates[c]) && AllFiled(updates[c], c)
    ensures ReplayedBut(before, updates, todo - {c}, now[c := Replay(now[c], updates[c])])
  {
    hide Replay, Replayable, AllFiled;
    assert GetActions(updates, c) == updates[c];
  }

  lemma ReplayedEnd(before: Coins, updates: Updates, now: Coins)
    requires ReplayedBut(before, updates, {}, now)
    ensures Replays(before, updates, now)
  {
    hide Replay, Replayable, AllFiled;
  }

  // ---------- the coin database ----------

  function StackIn(db: map<Commitment, Coin>, c: Commitment): seq<Coin> {
    if c in db then [db[c]] else []
  }

  ghost function StoredCoins(db: map<Commitment, Coin>): (coins: Coins)
    ensures TotalCoins(coins)
  {
    imap c: Commitment | true :: StackIn(db, c)
  }

  lemma StoredCoinsAre(a: map<Commitment, Coin>, b: map<Commitment, Coin>)
    ensures forall c: Commitment :: StoredCoins(a)[c] == StackIn(a, c) && StoredCoins(b)[c] == StackIn(b, c)
  {
  }

  /** A write batch, with the last operation on each key: a coin to write, or none for an erase. */
  class Batch {
    var ops: map<Commitment, CoinAction>

    constructor ()
      ensures ops == map[]
    {
      ops := map[];
    }

    method Write(c: Commitment, coin: Coin)
      modifies this
      ensures ops == old(ops)[c := Some(coin)]
    {
      ops := ops[c := Some(coin)];
    }

    method Erase(c: Commitment)
      modifies this
      ensures ops == old(ops)[c := None]
    {
      ops := ops[c := None];
    }
  }

  /** The batch operations after the updates of all commitments but those to do: the last action of each replaces what was there. */
  ghost predicate BatchHoldsBut(ops: map<Commitment, CoinAction>, before: map<Commitment, CoinAction>, updates: Updates,
                                todo: set<Commitment>)
  {
    forall c: Commitment ::
      if c in todo || GetActions(updates, c) == [] then (c in ops <==> c in before) && (c in ops ==> ops[c] == before[c])
      else c in ops && ops[c] == GetActions(updates, c)[|GetActions(updates, c)| - 1]
  }

  ghost predicate BatchHolds(ops: map<Commitment, CoinAction>, before: map<Commitment, CoinAction>, updates: Updates) {
    BatchHoldsBut(ops, before, updates, {})
  }

  lemma BatchStart(ops: map<Commitment, CoinAction>, updates: Updates)
    ensures BatchHoldsBut(ops, ops, updates, updates.Keys)
  {
  }

  lemma BatchStep(ops: map<Commitment, CoinAction>, before: map<Commitment, CoinAction>, updates: Updates, todo: set<Commitment>,
                  c: Commitment, after: map<Commitment, CoinAction>)
    requires BatchHoldsBut(ops, before, updates, todo) && c in todo && todo <= updates.Keys
    requires after == if updates[c] == [] then ops else ops[c := updates[c][|updates[c]| - 1]]
    ensures BatchHoldsBut(after, before, updates, todo - {c})
  {
  }

  /**
    DBTransaction on the coin table: coins written in the batch are read back, newest first, but an erased
    coin of the database is still read.
   */
  class DBTransaction {
    const batch: Batch
    var added: map<Commitment, seq<Coin>>

    constructor (batch: Batch)
      ensures this.batch == batch && forall c: Commitment :: Added(c) == []
    {
      this.batch := batch;
      added := map[];
    }

    ghost function Added(c: Commitment): seq<Coin>
      reads this
    {
      if c in added then added[c] else []
    }

    function Get(db: map<Commitment, Coin>, c: Commitment): (coins: seq<Coin>)
      reads this
      ensures coins == if Added(c) != [] then [Added(c)[|Added(c)| - 1]] else StackIn(db, c)
    {
      if c in added && added[c] != [] then [added[c][|added[c]| - 1]]
      else if c in db then [db[c]]
      else []
    }

    method Put(coin: Coin)
      modifies this, batch
      ensures batch.ops == old(batch.ops)[coin.output.commitment := Some(coin)]
      ensures forall d: Commitment :: Added(d) == if d == coin.output.commitment then old(Added(d)) + [coin] else old(Added(d))
    {
      var c := coin.output.commitment;
      batch.Write(c, coin);
      added := added[c := (if c in added then added[c] else []) + [coin]];
    }

    method Delete(c: Commitment)
      modifies this, batch
      ensures batch.ops == old(batch.ops)[c := None]
      ensures forall d: Commitment :: Added(d) == if d == c then Pop(old(Added(d))) else old(Added(d))
    {
      batch.Erase(c);
      if c in added && added[c] != [] {
        added := added[c := added[c][..|added[c]| - 1]];
      }
    }

    /** The actions of one commitment. Spending a coin that is not found is an exception in the source. */
    method WriteActions(db: map<Commitment, Coin>, c: Commitment, actions: seq<CoinAction>)
      requires Added(c) == [] && Replayable(StackIn(db, c), actions) && AllFiled(actions, c)
      modifies this, batch
      ensures batch.ops == if actions == [] then old(batch.ops) else old(batch.ops)[c := actions[|actions| - 1]]
      ensures forall d: Commitment :: d != c ==> Added(d) == old(Added(d))
    {
      hide Replay, Replayable;
      ReplayNothing(StackIn(db, c));
      assert actions[..0] == [];
      var i := 0;
      while i < |actions|
        invariant 0 <= i <= |actions|
        invariant |Replay(StackIn(db, c), actions[..i])| <= |StackIn(db, c)| + |Added(c)|
        invariant batch.ops == if i == 0 then old(batch.ops) else old(batch.ops)[c := actions[i - 1]]
        invariant forall d: Commitment :: d != c ==> Added(d) == old(Added(d))
      {
        ReplayablePrefix(StackIn(db, c), actions, i);
        ReplayStep(StackIn(db, c), actions[..i], actions[i]);
        assert actions[..i + 1] == actions[..i] + [actions[i]];
        if actions[i].None? {
          var utxos := Get(db, c);
          assert utxos != [];
          Delete(c);
        } else {
          Put(actions[i].value);
        }
        i := i + 1;
      }
    }
  }

  /** What the database holds of a commitment after a batch of actions is committed: the coin of the last push. */
  function Committed(stack: seq<Coin>, actions: seq<CoinAction>): seq<Coin> {
    if actions == [] then stack
    else
      match actions[|actions| - 1]
      case Some(coin) => [coin]
      case None => []
  }

  /** One coin is left after a push, or none after a spend. */
  ghost predicate Keeps(stack: seq<Coin>, actions: seq<CoinAction>) {
    actions != [] ==> |stack| == if actions[|actions| - 1].Some? then 1 else 0
  }

  /** The database keeps a stack exactly when one coin remains after a push, or none after a spend. */
  lemma FlushFaithfulIff(stack: seq<Coin>, actions: seq<CoinAction>)
    requires Replayable(stack, actions)
    ensures Committed(stack, actions) == Replay(stack, actions) <==> Keeps(Replay(stack, actions), actions)
  {
    if actions != [] && actions[|actions| - 1].Some? {
      var before := Replay(stack, actions[..|actions| - 1]);
      assert |before| == 0 ==> before + [actions[|actions| - 1].value] == [actions[|actions| - 1].value];
    }
  }

  /** The coins the database holds once the batch with the given updates is committed. */
  lemma CommittedCoins(below: map<Commitment, Coin>, after: map<Commitment, Coin>, ops: map<Commitment, CoinAction>,
                       updates: Updates, coins: Coins)
    requires BatchHolds(ops, map[], updates) && Replays(StoredCoins(below), updates, coins)
    requires forall c: Commitment :: StackIn(after, c) ==
               if c in ops then (if ops[c].Some? then [ops[c].value] else []) else StackIn(below, c)
    ensures forall c: Commitment :: StackIn(after, c) == Committed(StackIn(below, c), GetActions(updates, c))
    ensures forall c: Commitment :: StackIn(after, c) == coins[c] <==> Keeps(coins[c], GetActions(updates, c))
  {
    hide Replays, Replay, Replayable;
    forall c: Commitment
      ensures StackIn(after, c) == Committed(StackIn(below, c), GetActions(updates, c))
      ensures StackIn(after, c) == coins[c] <==> Keeps(coins[c], GetActions(updates, c))
    {
      ReplaysAt(StoredCoins(below), updates, coins, c);
      FlushFaithfulIff(StackIn(below, c), GetActions(updates, c));
    }
  }

  /** No commitment has two live coins, and committing the updates keeps every stack. */
  ghost predicate Once(coins: Coins, updates: Updates)
    ensures Once(coins, updates) ==> TotalCoins(coins)
  {
    && TotalCoins(coins)
    && forall c: Commitment :: |coins[c]| <= 1 && Keeps(coins[c], GetActions(updates, c))
  }

  lemma OnceStart(coins: Coins)
    requires TotalCoins(coins) && Unique(coins)
    ensures Once(coins, map[])
  {
  }

  lemma OnceUnique(coins: Coins, updates: Updates)
    requires Once(coins, updates)
    ensures Unique(coins)
  {
  }

  /** With at most one coin for each commitment, a commit loses none. */
  lemma OnceCommitted(coins: Coins, updates: Updates, after: Coins)
    requires Once(coins, updates) && TotalCoins(after)
    requires forall c: Commitment :: after[c] == coins[c] <==> Keeps(coins[c], GetActions(updates, c))
    ensures after == coins
  {
    hide Keeps;
    forall c: Commitment ensures after[c] == coins[c] {
      assert |coins[c]| <= 1 && Keeps(coins[c], GetActions(updates, c));
    }
  }

  /** One more pop, or a push that leaves no commitment with two coins. */
  lemma OnceAct(coins: Coins, updates: Updates, c: Commitment, action: CoinAction)
    requires Once(coins, updates) && (action.None? ==> coins[c] != [])
    requires action.None? || Unique(coins[c := Act(coins[c], action)])
    ensures Once(coins[c := Act(coins[c], action)], AddAction(updates, c, action))
  {
    hide AddAction;
    var after, actions := coins[c := Act(coins[c], action)], AddAction(updates, c, action);
    assert |after[c]| <= 1;
    forall d: Commitment ensures |after[d]| <= 1 && Keeps(after[d], GetActions(actions, d)) {
      assert |coins[d]| <= 1 && Keeps(coins[d], GetActions(updates, d));
    }
  }

  /** The actions of all commitments but those to do have been appended. */
  ghost predicate AppendedBut(below: Updates, updates: Updates, todo: set<Commitment>, now: Updates) {
    forall c: Commitment ::
      GetActions(now, c) == GetActions(below, c) + if c in todo then [] else GetActions(updates, c)
  }

  lemma AppendStart(below: Updates, updates: Updates)
    ensures AppendedBut(below, updates, updates.Keys, below)
  {
  }

  lemma AppendStep(below: Updates, updates: Updates, todo: set<Commitment>, now: Updates, c: Commitment, after: Updates)
    requires AppendedBut(below, updates, todo, now) && c in todo && todo <= updates.Keys
    requires forall d: Commitment :: GetActions(after, d) == GetActions(now, d) + if d == c then updates[c] else []
    ensures AppendedBut(below, updates, todo - {c}, after)
  {
    forall d: Commitment
      ensures GetActions(after, d) == GetActions(below, d) + if d in todo - {c} then [] else GetActions(updates, d)
    {
      assert GetActions(now, d) == GetActions(below, d) + if d in todo then [] else GetActions(updates, d);
    }
  }

  /** The updates of a cache on top of those of the view below it. */
  lemma OnceOver(before: Coins, below: Updates, after: Coins, updates: Updates, both: Updates)
    requires Once(before, below) && Once(after, updates) && Replays(before, updates, after)
    requires AppendedBut(below, updates, {}, both)
    ensures Once(after, both)
  {
    hide Replays;
    forall c: Commitment ensures |after[c]| <= 1 && Keeps(after[c], GetActions(both, c)) {
      assert GetActions(both, c) == GetActions(below, c) + GetActions(updates, c);
      ReplaysAt(before, updates, after, c);
      assert Keeps(before[c], GetActions(below, c)) && Keeps(after[c], GetActions(updates, c));
      if GetActions(updates, c) == [] {
        ReplayNothing(before[c]);
        assert GetActions(both, c) == GetActions(below, c);
      }
    }
  }

  /** As long as no commitment ever has two live coins, the database keeps every stack. */
  lemma FlushFaithful(stack: seq<Coin>, actions: seq<CoinAction>)
    requires Replayable(stack, actions)
    requires forall i :: 0 <= i <= |actions| ==> |Replay(stack, actions[..i])| <= 1
    ensures Committed(stack, actions) == Replay(stack, actions)
  {
    FlushFaithfulIff(stack, actions);
    assert actions[..|actions|] == actions;
    if actions != [] { assert |Replay(stack, actions[..|actions| - 1])| <= 1; }
  }

  /** A second live coin is dropped, or takes the first one along when it is spent. */
  lemma TwoCoinsAreLost(x: Coin, y: Coin)
    ensures Replay([x], [Some(y)]) == [x, y] && Committed([x], [Some(y)]) == [y]
    ensures Replay([x], [Some(y), None]) == [x] && Committed([x], [Some(y), None]) == []
  {
    ReplayNothing([x]);
    ReplayStep([x], [], Some(y));
    ReplayStep([x], [Some(y)], None);
    assert [] + [Some(y)] == [Some(y)] && [Some(y)] + [None] == [Some(y), None];
  }
}
