/** Over any interleaving of staging chunks, deploys and everything else: a deploy takes a staged state only whole,
    and then it is the chunks accepted since the last restart, joined. */
module StagedRuns {
  import opened Sequences
  import opened Wrappers
  import opened DeployWire
  import opened NodeModel

  /** An offset-0 chunk: it opens the slot's entry afresh, whether or not its own bytes are then accepted. */
  predicate Restarts(cfg: Config, m: Message, slot: int) {
    m.Stage? && m.slot == slot && m.offset == 0 && m.total > 0 && StageInRange(cfg, slot, m.total)
  }

  /** The bytes the message added to the slot's entry. */
  ghost function Added(cfg: Config, s: Node, m: Message, slot: int): Bytes
    requires NodeModel.Valid(s)
  {
    if m.Stage? && m.slot == slot && m.total > 0 && Apply(cfg, s, m).1 == Accepted then m.bytes else []
  }

  /** Everything accepted for the slot by messages r..k-1, in order. */
  ghost function AcceptedSince(cfg: Config, trace: seq<Message>, run: seq<Node>, slot: int, r: nat, k: nat): Bytes
    requires k <= |trace| && |run| == |trace| + 1 && forall i :: 0 <= i < k ==> NodeModel.Valid(run[i])
  {
    if k <= r then [] else AcceptedSince(cfg, trace, run, slot, r, k - 1) + Added(cfg, run[k - 1], trace[k - 1], slot)
  }

  /** Message `r` was the slot's last restart before `k`, and the entry holds exactly what was accepted since. */
  ghost predicate HoldsSince(cfg: Config, trace: seq<Message>, run: seq<Node>, slot: int, r: nat, k: nat)
    requires k <= |trace| && |run| == |trace| + 1 && forall i :: 0 <= i < k ==> NodeModel.Valid(run[i])
  {
    && r < k && Restarts(cfg, trace[r], slot)
    && (forall i :: r < i < k ==> !Restarts(cfg, trace[i], slot))
    && slot in run[k].staged
    && var entry := run[k].staged[slot];
    && |entry.bytes| == trace[r].total
    && entry.receivedBytes <= |entry.bytes|
    && entry.bytes[..entry.receivedBytes] == AcceptedSince(cfg, trace, run, slot, r, k)
  }

  lemma {:induction false} StagedOrigin(cfg: Config, trace: seq<Message>, run: seq<Node>, slot: int, k: nat) returns (r: nat)
    requires IsRun(cfg, trace, run) && slot !in run[0].staged
    requires k <= |trace| && slot in run[k].staged
    ensures forall i :: 0 <= i < k ==> NodeModel.Valid(run[i])
    ensures HoldsSince(cfg, trace, run, slot, r, k)
  {
    forall i | 0 <= i < k ensures NodeModel.Valid(run[i]) {
      assert Step(cfg, trace, run, i);
    }
    assert Step(cfg, trace, run, k - 1);
    var (s, m) := (run[k - 1], trace[k - 1]);
    EntryStep(cfg, s, m, slot);
    if Restarts(cfg, m, slot) {
      r := k - 1;
      assert AcceptedSince(cfg, trace, run, slot, r, r) == [];
      assert AcceptedSince(cfg, trace, run, slot, r, k) == [] + Added(cfg, s, m, slot);
    } else {
      r := StagedOrigin(cfg, trace, run, slot, k - 1);
    }
  }

  /** One message either starts the entry over or appends to it what it added. */
  lemma EntryStep(cfg: Config, s: Node, m: Message, slot: int)
    requires NodeModel.Valid(s) && slot in Apply(cfg, s, m).0.staged
    ensures var entry := Apply(cfg, s, m).0.staged[slot];
            && entry.receivedBytes <= |entry.bytes|
            && if Restarts(cfg, m, slot) then
                 |entry.bytes| == m.total && entry.bytes[..entry.receivedBytes] == Added(cfg, s, m, slot)
               else
                 && slot in s.staged && |entry.bytes| == |s.staged[slot].bytes|
                 && entry.bytes[..entry.receivedBytes] ==
                      s.staged[slot].bytes[..s.staged[slot].receivedBytes] + Added(cfg, s, m, slot)
  {
    if m.Stage? && m.slot == slot {
      OwnStage(cfg, s, slot, m.offset, m.total, m.bytes);
    } else {
      OthersKeep(cfg, s, m, slot);
    }
  }

  lemma OthersKeep(cfg: Config, s: Node, m: Message, slot: int)
    requires NodeModel.Valid(s) && !(m.Stage? && m.slot == slot) && slot in Apply(cfg, s, m).0.staged
    ensures slot in s.staged && Apply(cfg, s, m).0.staged[slot] == s.staged[slot]
  {
  }

  lemma OwnStage(cfg: Config, s: Node, slot: int, offset: int, total: int, chunk: Bytes)
    requires NodeModel.Valid(s) && slot in OnStage(cfg, s, slot, offset, total, chunk).0.staged
    ensures var (after, reply) := OnStage(cfg, s, slot, offset, total, chunk);
            var entry := after.staged[slot];
            && entry.receivedBytes <= |entry.bytes|
            && (if StageInRange(cfg, slot, total) && total > 0 && offset == 0 then |entry.bytes| == total
                else slot in s.staged && |entry.bytes| == |s.staged[slot].bytes|)
            && entry.bytes[..entry.receivedBytes] ==
                 (if StageInRange(cfg, slot, total) && total > 0 && offset == 0 then []
                  else s.staged[slot].bytes[..s.staged[slot].receivedBytes])
                 + (if reply == Accepted && total > 0 then chunk else [])
  {
    if StageInRange(cfg, slot, total) && total > 0 {
      var start := if offset == 0 then s.(staged := s.staged[slot := Staged(Zeros(total), 0)]) else s;
      var entry := start.staged[slot];
      if AppendStage(start, slot, offset, total, chunk).1 == Accepted {
        AppendKeepsPrefix(entry.bytes, entry.receivedBytes, chunk);
      }
    }
  }

  lemma AppendKeepsPrefix(bytes: Bytes, received: nat, chunk: Bytes)
    requires received + |chunk| <= |bytes|
    ensures Put(bytes, received, chunk)[..received + |chunk|] == bytes[..received] + chunk
  {
  }

  // ---------- when there is an entry ----------

  /** The message removes the slot's entry: a zero total, or a deploy that takes it or throws it away. */
  predicate Clears(cfg: Config, s: Node, m: Message, slot: int) {
    match m
    case Stage(at, _, total, _) => at == slot && total == 0 && StageInRange(cfg, slot, 0)
    case Deploy(fields, _, _) => fields.targetSlot == slot && Refusal(cfg, s, fields).None?
    case DirectDeploy(at, name, _, _) => ResolveSlot(cfg, s.slotsByName, s.contracts, at, name) == slot
    case _ => false
  }

  /** Message r restarted the slot's entry, and none from then to k restarted or removed it. */
  ghost predicate Standing(cfg: Config, trace: seq<Message>, run: seq<Node>, slot: int, r: nat, k: nat)
    requires k <= |trace| && |run| == |trace| + 1
  {
    r < k && Restarts(cfg, trace[r], slot) && forall i :: r < i < k ==> !Restarts(cfg, trace[i], slot) && !Clears(cfg, run[i], trace[i], slot)
  }

  lemma PresenceStep(cfg: Config, s: Node, m: Message, slot: int)
    requires NodeModel.Valid(s)
    ensures slot in Apply(cfg, s, m).0.staged <==> Restarts(cfg, m, slot) || (slot in s.staged && !Clears(cfg, s, m, slot))
  {
  }

  /** A slot has an entry exactly while a restart stands. */
  lemma {:induction false} EntryIff(cfg: Config, trace: seq<Message>, run: seq<Node>, slot: int, k: nat)
    requires IsRun(cfg, trace, run) && slot !in run[0].staged && k <= |trace|
    ensures slot in run[k].staged <==> exists r: nat :: Standing(cfg, trace, run, slot, r, k)
    decreases k
  {
    if k > 0 {
      assert Step(cfg, trace, run, k - 1);
      PresenceStep(cfg, run[k - 1], trace[k - 1], slot);
      EntryIff(cfg, trace, run, slot, k - 1);
      if Restarts(cfg, trace[k - 1], slot) {
        assert Standing(cfg, trace, run, slot, k - 1, k);
      } else if slot in run[k].staged {
        var r: nat :| Standing(cfg, trace, run, slot, r, k - 1);
        assert Standing(cfg, trace, run, slot, r, k);
      } else {
        StandingBefore(cfg, trace, run, slot, k);
      }
    }
  }

  lemma StandingBefore(cfg: Config, trace: seq<Message>, run: seq<Node>, slot: int, k: nat)
    requires 0 < k <= |trace| && |run| == |trace| + 1 && !Restarts(cfg, trace[k - 1], slot)
    ensures forall r: nat :: Standing(cfg, trace, run, slot, r, k) ==>
      Standing(cfg, trace, run, slot, r, k - 1) && !Clears(cfg, run[k - 1], trace[k - 1], slot)
  {
  }

  /** Only one restart can stand. */
  lemma StandingUnique(cfg: Config, trace: seq<Message>, run: seq<Node>, slot: int, r: nat, q: nat, k: nat)
    requires k <= |trace| && |run| == |trace| + 1
    requires Standing(cfg, trace, run, slot, r, k) && Standing(cfg, trace, run, slot, q, k)
    ensures r == q
  {
  }

  /** The chunks accepted since a restart that stands fill the total it declared. */
  ghost predicate Full(cfg: Config, trace: seq<Message>, run: seq<Node>, slot: int, r: nat, k: nat)
    requires k <= |trace| && |run| == |trace| + 1 && forall i :: 0 <= i < k ==> NodeModel.Valid(run[i])
  {
    Standing(cfg, trace, run, slot, r, k) && |AcceptedSince(cfg, trace, run, slot, r, k)| == trace[r].total
  }

  lemma HoldsSinceRestart(cfg: Config, trace: seq<Message>, run: seq<Node>, slot: int, r: nat, k: nat)
    requires IsRun(cfg, trace, run) && slot !in run[0].staged && k <= |trace| && Standing(cfg, trace, run, slot, r, k)
    ensures forall i :: 0 <= i < k ==> NodeModel.Valid(run[i])
    ensures HoldsSince(cfg, trace, run, slot, r, k)
  {
    EntryIff(cfg, trace, run, slot, k);
    var q := StagedOrigin(cfg, trace, run, slot, k);
  }

  /** A deploy takes a staged state exactly when a restart of its slot stands and the chunks accepted since then fill the
      total it declared; the bytes taken are those chunks joined. Taken or not, the deploy leaves nothing staged. */
  lemma TakenOnlyWhole(cfg: Config, trace: seq<Message>, run: seq<Node>, slot: nat, k: nat, name: Option<string>, wasm: Bytes, sim: SimDeploy)
    requires IsRun(cfg, trace, run) && slot !in run[0].staged && k <= |trace|
    ensures forall i :: 0 <= i < k ==> NodeModel.Valid(run[i])
    ensures var taken := DeployAt(run[k], slot, name, wasm, sim).deployments[|run[k].deployments|].initialState;
      && (taken.Some? <==> exists r: nat :: Full(cfg, trace, run, slot, r, k))
      && (forall r: nat :: Full(cfg, trace, run, slot, r, k) ==> taken == Some(AcceptedSince(cfg, trace, run, slot, r, k)))
    ensures slot !in DeployAt(run[k], slot, name, wasm, sim).staged
  {
    forall i | 0 <= i < k ensures NodeModel.Valid(run[i]) {
      assert Step(cfg, trace, run, i);
    }
    EntryIff(cfg, trace, run, slot, k);
    if slot in run[k].staged {
      var r: nat :| Standing(cfg, trace, run, slot, r, k);
      HoldsSinceRestart(cfg, trace, run, slot, r, k);
      var entry := run[k].staged[slot];
      assert entry.bytes[..|entry.bytes|] == entry.bytes;
      assert Full(cfg, trace, run, slot, r, k) <==> entry.receivedBytes == |entry.bytes|;
      forall q: nat | Standing(cfg, trace, run, slot, q, k) ensures q == r {
        StandingUnique(cfg, trace, run, slot, q, r, k);
      }
    }
  }

  // ---------- which chunks are accepted ----------

  /** A restart of the slot with this total stands, and the chunks accepted since then end at `offset`. */
  ghost predicate StandsAt(cfg: Config, trace: seq<Message>, run: seq<Node>, slot: int, total: int, offset: int, k: nat)
    requires k <= |trace| && |run| == |trace| + 1 && forall i :: 0 <= i < k ==> NodeModel.Valid(run[i])
  {
    exists r: nat :: Standing(cfg, trace, run, slot, r, k) && trace[r].total == total
                     && |AcceptedSince(cfg, trace, run, slot, r, k)| == offset
  }

  /** Which staging chunks are accepted, by the messages so far: a zero total clears, whatever else it says; any other chunk
      must fit its total and either restart the slot or carry on exactly where the accepted ones of the standing restart of
      the same total end. */
  lemma AcceptedIff(cfg: Config, trace: seq<Message>, run: seq<Node>, k: nat)
    requires IsRun(cfg, trace, run) && k < |trace| && trace[k].Stage? && trace[k].slot !in run[0].staged
    ensures forall i :: 0 <= i <= k ==> NodeModel.Valid(run[i])
    ensures var m := trace[k];
      Apply(cfg, run[k], m).1 == Accepted <==>
        && 1 <= m.slot < cfg.slotBase + cfg.slotCount && 0 <= m.total <= MAX_STAGED_STATE_BYTES
        && (m.total == 0
            || (m.offset + |m.bytes| <= m.total && (m.offset == 0 || StandsAt(cfg, trace, run, m.slot, m.total, m.offset, k))))
    ensures Apply(cfg, run[k], trace[k]).1 != Faulted
  {
    forall i | 0 <= i <= k ensures NodeModel.Valid(run[i]) {
      assert Step(cfg, trace, run, i);
    }
    var m := trace[k];
    EntryIff(cfg, trace, run, m.slot, k);
    if m.slot in run[k].staged {
      var r: nat :| Standing(cfg, trace, run, m.slot, r, k);
      HoldsSinceRestart(cfg, trace, run, m.slot, r, k);
      var entry := run[k].staged[m.slot];
      assert |entry.bytes[..entry.receivedBytes]| == entry.receivedBytes;
      forall q: nat | Standing(cfg, trace, run, m.slot, q, k) ensures q == r {
        StandingUnique(cfg, trace, run, m.slot, q, r, k);
      }
      assert StandsAt(cfg, trace, run, m.slot, m.total, m.offset, k) <==> |entry.bytes| == m.total && entry.receivedBytes == m.offset;
    }
  }

  // ---------- a state staged in order arrives ----------

  /** The i-th of the consecutive pieces of a state, as the message that stages it. */
  function PieceMessage(slot: int, pieces: seq<Bytes>, i: nat): Message
    requires i < |pieces|
  {
    Stage(slot, |Flatten(pieces[..i])|, |Flatten(pieces)|, pieces[i])
  }

  /** Message k hands a module to the simulator for this slot. */
  predicate DeploysTo(run: seq<Node>, k: nat, slot: int)
    requires k + 1 < |run|
  {
    && |run[k + 1].deployments| == |run[k].deployments| + 1
    && run[k + 1].deployments[|run[k].deployments|].slot == slot
  }

  /** The pieces are staged in order by the messages at `at`; from the first of them to message d nothing else is staged for
      the slot, and nothing is deployed to it. */
  ghost predicate InOrder(trace: seq<Message>, run: seq<Node>, slot: int, pieces: seq<Bytes>, at: seq<nat>, d: nat)
    requires d < |trace| && |run| == |trace| + 1
  {
    && |at| == |pieces| > 0
    && (forall i :: 0 <= i < |at| ==> at[0] <= at[i] < d && trace[at[i]] == PieceMessage(slot, pieces, i))
    && (forall i :: 0 < i < |at| ==> at[i - 1] < at[i])
    && forall k :: at[0] <= k < d && k !in at ==> !(trace[k].Stage? && trace[k].slot == slot) && !DeploysTo(run, k, slot)
  }

  /** The slot's entry holds the first n pieces of a state of this size. */
  ghost predicate HoldsPieces(s: Node, slot: int, pieces: seq<Bytes>, n: nat)
    requires n <= |pieces|
  {
    && slot in s.staged
    && var (entry, sofar) := (s.staged[slot], Flatten(pieces[..n]));
    && |entry.bytes| == |Flatten(pieces)| && entry.receivedBytes == |sofar| <= |entry.bytes|
    && entry.bytes[..|sofar|] == sofar
  }

  lemma {:induction false} FlattenPrefix(pieces: seq<Bytes>, n: nat)
    requires n <= |pieces|
    ensures Flatten(pieces[..n]) <= Flatten(pieces)
    ensures n < |pieces| ==> Flatten(pieces[..n + 1]) == Flatten(pieces[..n]) + pieces[n]
    decreases |pieces|
  {
    if n < |pieces| {
      assert pieces[..n + 1][..n] == pieces[..n];
      FlattenPrefix(pieces[..|pieces| - 1], n);
      assert pieces[..|pieces| - 1][..n] == pieces[..n];
    } else {
      assert pieces[..n] == pieces;
    }
  }

  /** The next piece is accepted and appended. */
  lemma PieceTaken(cfg: Config, s: Node, slot: int, pieces: seq<Bytes>, n: nat)
    requires NodeModel.Valid(s) && n < |pieces| && StageInRange(cfg, slot, |Flatten(pieces)|) && Flatten(pieces) != []
    requires n == 0 || HoldsPieces(s, slot, pieces, n)
    ensures HoldsPieces(Apply(cfg, s, PieceMessage(slot, pieces, n)).0, slot, pieces, n + 1)
    ensures Apply(cfg, s, PieceMessage(slot, pieces, n)).1 == Accepted
  {
    FlattenPrefix(pieces, n);
    FlattenPrefix(pieces, n + 1);
    var (sofar, piece) := (Flatten(pieces[..n]), pieces[n]);
    var start := if |sofar| == 0 then Staged(Zeros(|Flatten(pieces)|), 0) else s.staged[slot];
    AppendKeepsPrefix(start.bytes, start.receivedBytes, piece);
  }

  /** Before message k the first n pieces are in. */
  lemma {:induction false} PiecesIn(cfg: Config, trace: seq<Message>, run: seq<Node>, slot: int, pieces: seq<Bytes>, at: seq<nat>,
                                    d: nat, n: nat, k: nat)
    requires IsRun(cfg, trace, run) && d < |trace| && InOrder(trace, run, slot, pieces, at, d)
    requires StageInRange(cfg, slot, |Flatten(pieces)|) && Flatten(pieces) != []
    requires 0 < n <= |at| && at[n - 1] < k <= (if n < |at| then at[n] else d)
    ensures HoldsPieces(run[k], slot, pieces, n)
    decreases k
  {
    assert Step(cfg, trace, run, k - 1);
    if k - 1 == at[n - 1] {
      if n > 1 {
        PiecesIn(cfg, trace, run, slot, pieces, at, d, n - 1, k - 1);
      }
      PieceTaken(cfg, run[k - 1], slot, pieces, n - 1);
    } else {
      PiecesIn(cfg, trace, run, slot, pieces, at, d, n, k - 1);
      NotAmong(at, n, k - 1);
      Undisturbed(cfg, run, run[k - 1], trace[k - 1], slot, k - 1);
    }
  }

  lemma NotAmong(at: seq<nat>, n: nat, k: nat)
    requires 0 < n <= |at| && at[n - 1] < k && (n < |at| ==> k < at[n])
    requires forall q :: 0 < q < |at| ==> at[q - 1] < at[q]
    ensures k !in at
  {
    forall q | 0 <= q < |at| ensures at[q] != k {
      if q < n { Ascending(at, q, n - 1); } else { Ascending(at, n, q); }
    }
  }

  /** A message that neither stages for the slot nor deploys to it leaves the slot's entry as it was. */
  lemma Undisturbed(cfg: Config, run: seq<Node>, s: Node, m: Message, slot: int, k: nat)
    requires k + 1 < |run| && s == run[k] && NodeModel.Valid(s) && run[k + 1] == Apply(cfg, s, m).0
    requires slot in s.staged && !(m.Stage? && m.slot == slot) && !DeploysTo(run, k, slot)
    ensures slot in run[k + 1].staged && run[k + 1].staged[slot] == s.staged[slot]
  {
    PresenceStep(cfg, s, m, slot);
    if slot in run[k + 1].staged {
      OthersKeep(cfg, s, m, slot);
    }
  }

  /** Staging end to end: a state cut into consecutive pieces and staged in order, whatever arrives between for other slots
      and other uses, is accepted whole, and the next module deployed to the slot starts from exactly that state. */
  lemma StagedArrives(cfg: Config, trace: seq<Message>, run: seq<Node>, slot: int, state: Bytes, pieces: seq<Bytes>, at: seq<nat>, d: nat)
    requires IsRun(cfg, trace, run) && d < |trace| && state == Flatten(pieces)
    requires 1 <= slot < cfg.slotBase + cfg.slotCount && 1 <= |state| <= MAX_STAGED_STATE_BYTES
    requires InOrder(trace, run, slot, pieces, at, d) && DeploysTo(run, d, slot)
    ensures run[d + 1].deployments[|run[d].deployments|].initialState == Some(state)
    ensures slot !in run[d + 1].staged
    ensures forall i :: 0 <= i < |at| ==> NodeModel.Valid(run[at[i]]) && Apply(cfg, run[at[i]], trace[at[i]]).1 == Accepted
  {
    var n := |at|;
    PiecesIn(cfg, trace, run, slot, pieces, at, d, n, d);
    assert pieces[..n] == pieces;
    var entry := run[d].staged[slot];
    assert entry.bytes[..|entry.bytes|] == entry.bytes;
    TakesOnDeploy(cfg, trace, run, slot, d);
    forall i | 0 <= i < n ensures NodeModel.Valid(run[at[i]]) && Apply(cfg, run[at[i]], trace[at[i]]).1 == Accepted {
      assert Step(cfg, trace, run, at[i]);
      if i > 0 {
        PiecesIn(cfg, trace, run, slot, pieces, at, d, i, at[i]);
      }
      PieceTaken(cfg, run[at[i]], slot, pieces, i);
    }
  }

  lemma TakesOnDeploy(cfg: Config, trace: seq<Message>, run: seq<Node>, slot: int, d: nat)
    requires IsRun(cfg, trace, run) && d < |trace| && DeploysTo(run, d, slot)
    ensures run[d + 1].deployments[|run[d].deployments|].initialState == Takes(run[d].staged, slot)
    ensures slot !in run[d + 1].staged
  {
    hide Verdict;
    hide Refusal;
    hide ResolveSlot;
    hide Takes;
    assert Step(cfg, trace, run, d);
  }
}
