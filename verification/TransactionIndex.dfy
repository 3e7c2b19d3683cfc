/** The two transaction indexes of a node (packages/engine/src/transport.ts): raw bytes by alias, and the aliases of
    each transaction, filled by a broadcast and emptied when the simulator prunes a transaction. */
module TransactionIndex {
  import opened Sequences
  import opened Wrappers

  /** A digest in hex, or an identity text. */
  datatype Alias = Alias(text: string)

  datatype Stored = Stored(txId: Alias, bytes: Bytes)
  datatype Index = Index(raw: map<Alias, Stored>, byId: map<Alias, seq<Alias>>)

  /** Every alias a transaction lists is stored for it. */
  ghost predicate Backed(ix: Index) {
    forall t, a :: t in ix.byId && a in ix.byId[t] ==> a in ix.raw && ix.raw[a].txId == t
  }

  /** Every alias stored for a transaction is on its list. */
  ghost predicate Listed(ix: Index) {
    forall a :: a in ix.raw ==> ix.raw[a].txId in ix.byId && a in ix.byId[ix.raw[a].txId]
  }

  /** The indexes agree: alias a is stored for transaction t exactly when t lists a; lists repeat nothing, and a
      transaction is one of its own aliases. */
  ghost predicate Agree(ix: Index) {
    && Backed(ix) && Listed(ix)
    && (forall t :: t in ix.byId ==> t in ix.byId[t] && NoRepeats(ix.byId[t]))
  }

  /** Alias lists of different transactions share nothing. */
  lemma AliasesDisjoint(ix: Index, t: Alias, t': Alias, a: Alias)
    requires Agree(ix) && t in ix.byId && t' in ix.byId && t != t' && a in ix.byId[t]
    ensures a !in ix.byId[t']
  {
    assert ix.raw[a].txId == t;
  }

  /** A transaction's three aliases: the digest of its body, its full digest, and its identity text. */
  datatype Transaction = Transaction(txId: Alias, bodyDigest: Alias, fullDigest: Alias, bytes: Bytes)

  function Aliases(tx: Transaction): seq<Alias> {
    [tx.bodyDigest, tx.fullDigest, tx.txId]
  }

  predicate Known(ix: Index, tx: Transaction) {
    exists a :: a in Aliases(tx) && a in ix.raw
  }

  function ToAll(aliases: seq<Alias>, stored: Stored): map<Alias, Stored> {
    map a | a in aliases :: stored
  }

  function Store(ix: Index, tx: Transaction): Index {
    Index(ix.raw + ToAll(Aliases(tx), Stored(tx.txId, tx.bytes)), ix.byId[tx.txId := FirstOf(Aliases(tx))])
  }

  /** Pruning, said without the alias lists: every alias of the transaction goes, and no other. */
  function Prune(ix: Index, txId: Alias): Index {
    Index(map a | a in ix.raw && ix.raw[a].txId != txId :: ix.raw[a], ix.byId - {txId})
  }

  lemma IdIsKnown(ix: Index, tx: Transaction)
    requires Agree(ix)
    ensures tx.txId in ix.byId ==> Known(ix, tx)
  {
    if tx.txId in ix.byId {
      assert Aliases(tx)[2] == tx.txId;
      assert tx.txId in ix.byId[tx.txId];
      assert tx.txId in Aliases(tx) && tx.txId in ix.raw;
    }
  }

  lemma StoreAgrees(ix: Index, tx: Transaction)
    requires Agree(ix) && !Known(ix, tx)
    ensures Agree(Store(ix, tx))
  {
    IdIsKnown(ix, tx);
    StoreBacked(ix, tx);
    StoreListed(ix, tx);
    assert Aliases(tx)[2] == tx.txId;
  }

  lemma StoreListed(ix: Index, tx: Transaction)
    requires Listed(ix) && tx.txId !in ix.byId
    ensures Listed(Store(ix, tx))
  {
    var after := Store(ix, tx);
    forall a | a in after.raw ensures after.raw[a].txId in after.byId && a in after.byId[after.raw[a].txId] {
      if a !in Aliases(tx) {
        assert a in ix.raw;
      }
    }
  }

  lemma StoreBacked(ix: Index, tx: Transaction)
    requires Backed(ix) && !Known(ix, tx) && tx.txId !in ix.byId
    ensures Backed(Store(ix, tx))
  {
    var after := Store(ix, tx);
    forall t, a | t in after.byId && a in after.byId[t] ensures a in after.raw && after.raw[a].txId == t {
      if t != tx.txId {
        assert a in ix.raw && a !in Aliases(tx);
      }
    }
  }

  lemma PruneAgrees(ix: Index, txId: Alias)
    requires Agree(ix)
    ensures Agree(Prune(ix, txId))
  {
  }

  class TransactionIndex {
    var rawTransactions: map<Alias, Stored>
    var rawAliasesByTxId: map<Alias, seq<Alias>>

    ghost function Abs(): Index
      reads this
    {
      Index(rawTransactions, rawAliasesByTxId)
    }

    ghost predicate Valid()
      reads this
    {
      Agree(Abs())
    }

    constructor ()
      ensures Valid() && Abs() == Index(map[], map[])
    {
      rawTransactions, rawAliasesByTxId := map[], map[];
    }

    method StoreRawTransaction(tx: Transaction)
      requires Valid() && !Known(Abs(), tx)
      modifies this
      ensures Valid() && Abs() == Store(old(Abs()), tx)
    {
      StoreAgrees(Abs(), tx);
      var uniqueAliases := FirstOf(Aliases(tx));
      AddAliases(uniqueAliases, Stored(tx.txId, tx.bytes));
      rawAliasesByTxId := rawAliasesByTxId[tx.txId := uniqueAliases];
      assert ToAll(uniqueAliases, Stored(tx.txId, tx.bytes)) == ToAll(Aliases(tx), Stored(tx.txId, tx.bytes));
    }

    method AddAliases(aliases: seq<Alias>, stored: Stored)
      modifies `rawTransactions
      ensures rawTransactions == old(rawTransactions) + ToAll(aliases, stored)
    {
      for i := 0 to |aliases|
        invariant rawTransactions == old(rawTransactions) + ToAll(aliases[..i], stored)
      {
        assert aliases[..i + 1] == aliases[..i] + [aliases[i]];
        assert ToAll(aliases[..i + 1], stored) == ToAll(aliases[..i], stored)[aliases[i] := stored];
        rawTransactions := rawTransactions[aliases[i] := stored];
      }
      assert aliases[..|aliases|] == aliases;
    }

    method RemoveAliases(aliases: seq<Alias>)
      modifies `rawTransactions
      ensures rawTransactions == map a | a in old(rawTransactions) && a !in aliases :: old(rawTransactions)[a]
    {
      for i := 0 to |aliases|
        invariant rawTransactions == map a | a in old(rawTransactions) && a !in aliases[..i] :: old(rawTransactions)[a]
      {
        assert aliases[..i + 1] == aliases[..i] + [aliases[i]];
        rawTransactions := rawTransactions - {aliases[i]};
      }
      assert aliases[..|aliases|] == aliases;
    }

    /** An ordinary broadcast: a known alias refuses it, and so may the simulator's queue. */
    method BroadcastTx(tx: Transaction, queueAdmits: bool) returns (ok: bool)
      requires Valid()
      modifies this
      ensures Valid() && ok == (!Known(old(Abs()), tx) && queueAdmits)
      ensures Abs() == if ok then Store(old(Abs()), tx) else old(Abs())
    {
      if tx.bodyDigest in rawTransactions || tx.fullDigest in rawTransactions || tx.txId in rawTransactions {
        assert Aliases(tx)[0] == tx.bodyDigest && Aliases(tx)[1] == tx.fullDigest && Aliases(tx)[2] == tx.txId;
        return false;
      }
      if !queueAdmits {
        return false;
      }
      StoreRawTransaction(tx);
      return true;
    }

    method PruneTransaction(txId: Alias)
      requires Valid()
      modifies this
      ensures Valid() && Abs() == Prune(old(Abs()), txId)
    {
      PruneAgrees(Abs(), txId);
      var aliases := if txId in rawAliasesByTxId then rawAliasesByTxId[txId] else [];
      RemoveAliases(aliases);
      rawAliasesByTxId := rawAliasesByTxId - {txId};
      assert rawTransactions == Prune(old(Abs()), txId).raw;
    }

    /** What one tick of the simulator pruned. */
    method PruneTick(txIds: seq<Alias>)
      requires Valid()
      modifies this
      ensures Valid() && Abs() == PruneAll(old(Abs()), txIds)
    {
      for i := 0 to |txIds|
        invariant Valid() && Abs() == PruneAll(old(Abs()), txIds[..i])
      {
        assert txIds[..i + 1][..i] == txIds[..i];
        PruneTransaction(txIds[i]);
      }
      assert txIds[..|txIds|] == txIds;
    }
  }

  function PruneAll(ix: Index, txIds: seq<Alias>): Index {
    if txIds == [] then ix else Prune(PruneAll(ix, txIds[..|txIds| - 1]), txIds[|txIds| - 1])
  }

  // ---------- runs ----------

  datatype Event = Broadcast(tx: Transaction, queueAdmits: bool) | Tick(pruned: seq<Alias>)

  function Next(ix: Index, e: Event): Index {
    match e
    case Broadcast(tx, queueAdmits) => if !Known(ix, tx) && queueAdmits then Store(ix, tx) else ix
    case Tick(pruned) => PruneAll(ix, pruned)
  }

  ghost predicate Step(events: seq<Event>, run: seq<Index>, k: nat)
    requires k < |events| && |run| == |events| + 1
  {
    run[k + 1] == Next(run[k], events[k])
  }

  predicate Prunes(e: Event, txId: Alias) {
    e.Tick? && txId in e.pruned
  }

  ghost predicate IsRun(events: seq<Event>, run: seq<Index>) {
    && |run| == |events| + 1 && Agree(run[0])
    && forall k :: 0 <= k < |events| ==> Step(events, run, k)
  }

  lemma {:induction false} PruneAllAgrees(ix: Index, txIds: seq<Alias>)
    requires Agree(ix)
    ensures Agree(PruneAll(ix, txIds))
    ensures forall t :: t in PruneAll(ix, txIds).byId <==> t in ix.byId && t !in txIds
    ensures forall a :: a in PruneAll(ix, txIds).raw <==> a in ix.raw && ix.raw[a].txId !in txIds
    ensures forall a :: a in PruneAll(ix, txIds).raw ==> PruneAll(ix, txIds).raw[a] == ix.raw[a]
  {
    if txIds != [] {
      var front := txIds[..|txIds| - 1];
      assert txIds == front + [txIds[|txIds| - 1]];
      PruneAllAgrees(ix, front);
      PruneAgrees(PruneAll(ix, front), txIds[|txIds| - 1]);
    }
  }

  /** The indexes agree in every reachable state. */
  lemma {:induction false} AlwaysAgree(events: seq<Event>, run: seq<Index>, k: nat)
    requires IsRun(events, run) && k <= |events|
    ensures Agree(run[k])
  {
    if k != 0 {
      AlwaysAgree(events, run, k - 1);
      assert Step(events, run, k - 1);
      match events[k - 1]
      case Broadcast(tx, queueAdmits) =>
        if !Known(run[k - 1], tx) && queueAdmits { StoreAgrees(run[k - 1], tx); }
      case Tick(pruned) => PruneAllAgrees(run[k - 1], pruned);
    }
  }

  /** A stored transaction answers every one of its aliases with its own bytes until a tick prunes it, and nothing
      else ever takes an alias over. */
  lemma {:induction false} LookupStands(events: seq<Event>, run: seq<Index>, i: nat, j: nat, alias: Alias)
    requires IsRun(events, run) && i <= j <= |events| && alias in run[i].raw
    requires forall k :: i <= k < j ==> !Prunes(events[k], run[i].raw[alias].txId)
    ensures alias in run[j].raw && run[j].raw[alias] == run[i].raw[alias]
  {
    if i < j {
      LookupStands(events, run, i, j - 1, alias);
      AlwaysAgree(events, run, j - 1);
      assert Step(events, run, j - 1);
      assert !Prunes(events[j - 1], run[i].raw[alias].txId);
      if events[j - 1].Tick? {
        PruneAllAgrees(run[j - 1], events[j - 1].pruned);
      }
    }
  }

  /** An accepted broadcast: the queue admits it, and none of its three digests was known. */
  predicate Admitted(ix: Index, e: Event) {
    e.Broadcast? && e.queueAdmits && e.tx.bodyDigest !in ix.raw && e.tx.fullDigest !in ix.raw && e.tx.txId !in ix.raw
  }

  predicate AliasOf(tx: Transaction, alias: Alias) {
    alias == tx.bodyDigest || alias == tx.fullDigest || alias == tx.txId
  }

  /** Event i is the accepted broadcast of a transaction with this alias, and no tick from then to k prunes it. */
  ghost predicate Answering(events: seq<Event>, run: seq<Index>, alias: Alias, i: nat, k: nat)
    requires k <= |events| && |run| == |events| + 1
  {
    && i < k && Admitted(run[i], events[i]) && AliasOf(events[i].tx, alias)
    && forall t :: i < t < k ==> !Prunes(events[t], events[i].tx.txId)
  }

  /** What a lookup finds: from an empty start, an alias answers exactly while an accepted broadcast of its transaction
      stands, and then with that transaction's own bytes. A duplicate, or a transaction the queue turns away, changes
      nothing. */
  lemma {:induction false} LookupIff(events: seq<Event>, run: seq<Index>, alias: Alias, k: nat)
    requires IsRun(events, run) && run[0].raw == map[] && k <= |events|
    ensures alias in run[k].raw <==> exists i: nat :: Answering(events, run, alias, i, k)
    ensures forall i: nat :: Answering(events, run, alias, i, k) ==>
      alias in run[k].raw && run[k].raw[alias] == Stored(events[i].tx.txId, events[i].tx.bytes)
    decreases k
  {
    if k > 0 {
      LookupIff(events, run, alias, k - 1);
      AlwaysAgree(events, run, k - 1);
      assert Step(events, run, k - 1);
      LookupStep(run[k - 1], events[k - 1], alias);
      AnsweringNext(events, run, alias, k - 1, k);
    }
  }

  /** One event, as a lookup sees it. */
  lemma LookupStep(ix: Index, e: Event, alias: Alias)
    requires Agree(ix)
    ensures var after := Next(ix, e).raw;
      if Admitted(ix, e) && AliasOf(e.tx, alias) then alias !in ix.raw && alias in after && after[alias] == Stored(e.tx.txId, e.tx.bytes)
      else
        && (alias in after <==> alias in ix.raw && !Prunes(e, ix.raw[alias].txId))
        && (alias in after ==> after[alias] == ix.raw[alias])
  {
    match e
    case Broadcast(tx, _) =>
      assert Aliases(tx)[0] == tx.bodyDigest && Aliases(tx)[1] == tx.fullDigest && Aliases(tx)[2] == tx.txId;
      assert Known(ix, tx) <==> tx.bodyDigest in ix.raw || tx.fullDigest in ix.raw || tx.txId in ix.raw;
    case Tick(pruned) =>
      PruneAllAgrees(ix, pruned);
  }

  lemma AnsweringNext(events: seq<Event>, run: seq<Index>, alias: Alias, j: nat, k: nat)
    requires k == j + 1 <= |events| && |run| == |events| + 1
    ensures forall i: nat :: Answering(events, run, alias, i, k) <==>
      if i == j then Admitted(run[j], events[j]) && AliasOf(events[j].tx, alias)
      else Answering(events, run, alias, i, j) && !Prunes(events[j], events[i].tx.txId)
  {
  }

  ghost predicate Gone(ix: Index, txId: Alias) {
    txId !in ix.byId && forall a :: a in ix.raw ==> ix.raw[a].txId != txId
  }

  /** The tick that prunes a transaction leaves it under no alias at all. */
  lemma PrunedIsGone(events: seq<Event>, run: seq<Index>, k: nat, txId: Alias)
    requires IsRun(events, run) && k < |events| && Prunes(events[k], txId)
    ensures Gone(run[k + 1], txId)
  {
    AlwaysAgree(events, run, k);
    PruneAllAgrees(run[k], events[k].pruned);
    assert Step(events, run, k);
  }
}
