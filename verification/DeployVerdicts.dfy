/** The outcome a node reports for a DEPLOY (packages/engine/src/transport.ts): which code it records on which facts,
    where a recorded "armed" comes from, and that an upload once reported incomplete can still be armed. */
module DeployVerdicts {
  import opened Sequences
  import opened Wrappers
  import opened DeployWire
  import opened NodeModel
  import opened NodeRuns
  import opened SessionClock

  /** A final verdict of the session is on record. */
  predicate Stands(s: Node, sessionId: nat) {
    s.lastDeploy.Some? && s.lastDeploy.value.sessionId == sessionId && s.lastDeploy.value.code != Incomplete
  }

  /** The facts that each code reports. */
  ghost predicate Reports(cfg: Config, s: Node, m: DeployFields, load: Load, code: Code) {
    match code
    case BadSlot => !InSlotRange(cfg, m)
    case AbiMismatch => InSlotRange(cfg, m) && m.abiVersion != WASM_ABI_VERSION
    case SessionMismatch => Addressed(cfg, m) && !ForLive(s, m)
    case Incomplete => Addressed(cfg, m) && ForLive(s, m) && exists i: nat :: i < s.upload.value.chunkCount && i !in s.upload.value.received
    case HashMismatch =>
      Addressed(cfg, m) && ForLive(s, m) && NothingMissing(s.upload.value) && !DigestsMatch(cfg, s.upload.value, m)
    case NotWasm => Commits(cfg, s, m) && !(WASM_MAGIC <= s.upload.value.buf)
    case LoadFailed => Commits(cfg, s, m) && WASM_MAGIC <= s.upload.value.buf && load == LoadError
    case Armed => Commits(cfg, s, m) && WASM_MAGIC <= s.upload.value.buf && load == Loaded
  }

  /** Message d handed its module to the simulator. */
  predicate Handed(run: seq<Node>, d: nat)
    requires d + 1 < |run|
  {
    run[d + 1].deployments != run[d].deployments
  }

  /** What a DEPLOY records: its slot, the tick, and the code its facts call for. It records nothing when a final verdict of
      its session stands, or the engine faults on the module it handed over. */
  lemma OutcomeIff(cfg: Config, trace: seq<Message>, run: seq<Node>, d: nat)
    requires IsRun(cfg, trace, run) && d < |trace| && trace[d].Deploy?
    ensures var (m, load, after) := (trace[d].deploy, trace[d].sim.load, run[d + 1].lastDeploy);
      if Stands(run[d], m.sessionId) || (Handed(run, d) && load == EngineFault) then after == run[d].lastDeploy
      else
        && after.Some? && after.value.sessionId == m.sessionId && after.value.slot == m.targetSlot && after.value.tick == run[d].tick
        && (forall code :: after.value.code == code <==> Reports(cfg, run[d], m, load, code))
        && (after.value.code == Armed <==> Handed(run, d) && load == Loaded)
        && (after.value.code == LoadFailed <==> Handed(run, d) && load == LoadError)
  {
    hide Commits;
    assert Step(cfg, trace, run, d);
    var (s, m) := (run[d], trace[d].deploy);
    CommitsIff(cfg, s, m);
    HandedOverIff(cfg, s, m, trace[d].contract, trace[d].sim);
    RefusalIff(cfg, s, m, trace[d].sim.load);
  }

  lemma RefusalIff(cfg: Config, s: Node, m: DeployFields, load: Load)
    requires NodeModel.Valid(s)
    ensures forall code :: code !in {LoadFailed, Armed} ==> (Refusal(cfg, s, m) == Some(code) <==> Reports(cfg, s, m, load, code))
    ensures Refusal(cfg, s, m) !in {Some(LoadFailed), Some(Armed)}
  {
    CommitsIff(cfg, s, m);
  }

  /** A DEPLOY is answered well exactly when its module was handed over and loaded, and faults exactly when the engine does
      on a module handed over. */
  lemma ReplyIff(cfg: Config, trace: seq<Message>, run: seq<Node>, d: nat)
    requires IsRun(cfg, trace, run) && d < |trace| && trace[d].Deploy?
    ensures NodeModel.Valid(run[d])
    ensures var reply := Apply(cfg, run[d], trace[d]).1;
      && (reply == Accepted <==> Handed(run, d) && trace[d].sim.load == Loaded)
      && (reply == Faulted <==> Handed(run, d) && trace[d].sim.load == EngineFault)
  {
    assert Step(cfg, trace, run, d);
  }

  // ---------- where a recorded outcome comes from ----------

  /** Message d is the DEPLOY whose outcome is on record in state k. */
  ghost predicate RecordedBy(trace: seq<Message>, run: seq<Node>, d: nat, k: nat)
    requires k <= |trace| && |run| == |trace| + 1
  {
    && d < k && trace[d].Deploy? && run[k].lastDeploy.Some?
    && run[d + 1].lastDeploy == run[k].lastDeploy
    && var outcome := run[k].lastDeploy.value;
    && outcome.sessionId == trace[d].deploy.sessionId && outcome.slot == trace[d].deploy.targetSlot && outcome.tick == run[d].tick
    && !Stands(run[d], outcome.sessionId)
  }

  /** Every recorded outcome was recorded by some DEPLOY, for which no verdict of its session stood. */
  lemma {:induction false} OutcomeOrigin(cfg: Config, trace: seq<Message>, run: seq<Node>, k: nat) returns (d: nat)
    requires IsRun(cfg, trace, run) && run[0].lastDeploy.None? && k <= |trace| && run[k].lastDeploy.Some?
    ensures RecordedBy(trace, run, d, k)
    decreases k
  {
    assert Step(cfg, trace, run, k - 1);
    if run[k].lastDeploy == run[k - 1].lastDeploy {
      d := OutcomeOrigin(cfg, trace, run, k - 1);
    } else {
      RecordStep(cfg, run[k - 1], trace[k - 1]);
      d := k - 1;
    }
  }

  /** Only a DEPLOY for whose session no verdict stands changes what is on record. */
  lemma RecordStep(cfg: Config, s: Node, m: Message)
    requires NodeModel.Valid(s)
    ensures var after := Apply(cfg, s, m).0.lastDeploy;
      after == s.lastDeploy
      || (&& m.Deploy? && after.Some? && after.value.sessionId == m.deploy.sessionId && after.value.slot == m.deploy.targetSlot
          && after.value.tick == s.tick && !Stands(s, m.deploy.sessionId))
  {
  }

  /** "Armed" is never on record without a module that loaded: the DEPLOY that recorded it handed one complete, hashed,
      magic-prefixed session of this very session id to the slot on record, and the simulator loaded it. */
  lemma ArmedOrigin(cfg: Config, trace: seq<Message>, run: seq<Node>, k: nat)
    returns (b: nat, pos: map<nat, nat>, d: nat, handed: Deployment)
    requires IsRun(cfg, trace, run) && run[0].upload.None? && run[0].lastDeploy.None?
    requires k <= |trace| && run[k].lastDeploy.Some? && run[k].lastDeploy.value.code == Armed
    ensures RecordedBy(trace, run, d, k) && trace[d].sim.load == Loaded
    ensures run[d + 1].deployments == run[d].deployments + [handed] && handed.slot == run[k].lastDeploy.value.slot
    ensures WholeSession(trace, run, b, pos, d) && trace[b].begin.sessionId == run[k].lastDeploy.value.sessionId
    ensures handed.wasm == Flatten(Bodies(trace, pos, trace[b].begin.chunkCount)) && cfg.k12(handed.wasm) == trace[b].begin.finalHash
  {
    d := OutcomeOrigin(cfg, trace, run, k);
    OutcomeIff(cfg, trace, run, d);
    b, pos, handed := DeployedModule(cfg, trace, run, d);
  }

  // ---------- incomplete is not the end ----------

  /** While no DEPLOY of the session comes, no final verdict of it comes to stand. */
  lemma {:induction false} NoneComes(cfg: Config, trace: seq<Message>, run: seq<Node>, sessionId: nat, i: nat, j: nat)
    requires IsRun(cfg, trace, run) && i <= j <= |trace| && !Stands(run[i], sessionId)
    requires forall k :: i <= k < j && trace[k].Deploy? ==> trace[k].deploy.sessionId != sessionId
    ensures !Stands(run[j], sessionId)
    decreases j
  {
    if i < j {
      NoneComes(cfg, trace, run, sessionId, i, j - 1);
      assert Step(cfg, trace, run, j - 1);
      RecordStep(cfg, run[j - 1], trace[j - 1]);
    }
  }

  /** A DEPLOY of the live session came too early and was reported incomplete. If the session then keeps making progress,
      every chunk that was missing is taken, no other DEPLOY of the session comes between, and the next one names the right
      slot, ABI version and digest of a wasm module that loads, then "armed" replaces the report. */
  lemma IncompleteThenArmed(cfg: Config, trace: seq<Message>, run: seq<Node>, i: nat, d: nat)
    requires IsRun(cfg, trace, run) && i <= d < |trace| && trace[d].Deploy?
    requires var m := trace[d].deploy;
      && ForLive(run[i], m) && Addressed(cfg, m)
      && run[i].lastDeploy.Some? && run[i].lastDeploy.value.sessionId == m.sessionId && run[i].lastDeploy.value.code == Incomplete
      && (forall k :: i <= k < d && trace[k].Deploy? ==> trace[k].deploy.sessionId != m.sessionId)
    requires forall k :: i <= k < d ==> Spares(cfg, trace, run, k)
    requires forall n: nat :: n < run[i].upload.value.chunkCount && n !in run[i].upload.value.received ==> Took(trace, run, i, d, n)
    requires run[d].upload.Some? ==> DigestsMatch(cfg, run[d].upload.value, trace[d].deploy) && WASM_MAGIC <= run[d].upload.value.buf
    requires trace[d].sim.load == Loaded
    ensures Handed(run, d)
    ensures run[d + 1].lastDeploy == Some(Outcome(trace[d].deploy.sessionId, trace[d].deploy.targetSlot, run[d].tick, Armed))
  {
    Survives(cfg, trace, run, i, d);
    NoneComes(cfg, trace, run, trace[d].deploy.sessionId, i, d);
    assert NothingMissing(run[d].upload.value);
    OutcomeIff(cfg, trace, run, d);
    assert Reports(cfg, run[d], trace[d].deploy, Loaded, Armed);
  }

  /** Any other report does stand. A DEPLOY that overtakes the BEGIN of its own session is told of a session mismatch, and
      unless another session's outcome is recorded in between, that is still what is on record after the same session has
      been uploaded, deployed and loaded. */
  lemma EarlyReportHides(cfg: Config, trace: seq<Message>, run: seq<Node>, i: nat, d: nat)
    requires IsRun(cfg, trace, run) && i < d < |trace| && trace[i].Deploy? && trace[d].Deploy?
    requires trace[i].deploy.sessionId == trace[d].deploy.sessionId && !Stands(run[i], trace[i].deploy.sessionId)
    requires Addressed(cfg, trace[i].deploy) && !ForLive(run[i], trace[i].deploy)
    requires forall k: nat :: i < k < d ==> !RecordsAnother(trace, run, k, trace[i].deploy.sessionId)
    requires Handed(run, d) && trace[d].sim.load == Loaded
    ensures run[d + 1].lastDeploy ==
      Some(Outcome(trace[i].deploy.sessionId, trace[i].deploy.targetSlot, run[i].tick, SessionMismatch))
  {
    OutcomeIff(cfg, trace, run, i);
    assert Step(cfg, trace, run, i);
    HandedOverIff(cfg, run[i], trace[i].deploy, trace[i].contract, trace[i].sim);
    assert Reports(cfg, run[i], trace[i].deploy, trace[i].sim.load, SessionMismatch);
    VerdictStands(cfg, trace, run, i + 1, d);
    OutcomeIff(cfg, trace, run, d);
  }
}
