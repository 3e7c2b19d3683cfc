/** The protocol end to end: a client cuts a module up and encodes it (packages/proto/src/deploy.ts), the node decodes
    and reassembles it, and what reaches the simulator is the module, whatever order the chunks arrive in and whatever
    else arrives between them. */
module ClientUpload {
  import opened Sequences
  import opened Wrappers
  import opened DeployWire
  import opened NodeModel
  import opened NodeRuns
  import opened DeployVerdicts

  /** What one client sends for one module. */
  datatype Client = Client(sessionId: nat, bytes: Bytes, slot: nat, stateLayoutVersion: nat, name: Bytes)

  predicate Acceptable(cfg: Config, c: Client) {
    && c.sessionId < UINT64_RANGE && |c.name| == 32
    && 1 <= |c.bytes| <= MAX_WASM_MODULE_SIZE && |cfg.k12(c.bytes)| == 32
    && cfg.slotBase <= c.slot < cfg.slotBase + cfg.slotCount && c.slot < UINT32_RANGE
  }

  function BeginPayload(cfg: Config, c: Client): Bytes
    requires Acceptable(cfg, c)
  {
    EncodeBegin(BeginFields(c.sessionId, |c.bytes|, ChunkCount(|c.bytes|), cfg.k12(c.bytes)))
  }

  function ChunkPayload(c: Client, i: nat): Bytes
    requires i < ChunkCount(|c.bytes|)
  {
    ChunkStarts(|c.bytes|, i);
    EncodeChunk(c.sessionId, i, SplitChunk(c.bytes, i))
  }

  function DeployPayload(cfg: Config, c: Client): Bytes
    requires Acceptable(cfg, c)
  {
    EncodeDeploy(DeployFields(c.sessionId, c.slot, cfg.k12(c.bytes), WASM_ABI_VERSION), c.stateLayoutVersion, c.name)
  }

  // ---------- the client's messages, as the node decodes them ----------

  function BeginMessage(cfg: Config, c: Client, sim: SimDeploy): Message
    requires Acceptable(cfg, c)
  {
    Decode(cfg, UPLOAD_BEGIN, BeginPayload(cfg, c), sim)
  }

  function ChunkMessage(c: Client, i: nat): Message
    requires i < ChunkCount(|c.bytes|)
  {
    Chunk(ChunkFields(c.sessionId, i, |SplitChunk(c.bytes, i)|), SplitChunk(c.bytes, i))
  }

  lemma ChunkDecodes(cfg: Config, c: Client, i: nat, sim: SimDeploy)
    requires Acceptable(cfg, c) && i < ChunkCount(|c.bytes|)
    ensures Decode(cfg, UPLOAD_CHUNK, ChunkPayload(c, i), sim) == ChunkMessage(c, i)
  {
    SizesFit(|c.bytes|);
    ChunkStarts(|c.bytes|, i);
    ChunkRoundTrip(c.sessionId, i, SplitChunk(c.bytes, i));
  }

  function DeployMessage(cfg: Config, c: Client, sim: SimDeploy): Message
    requires Acceptable(cfg, c)
  {
    Decode(cfg, DEPLOY, DeployPayload(cfg, c), sim)
  }

  /** Which transactions to the deploy address mean anything: those of the three types that are long enough. The name at the
      end of a DEPLOY may be missing. Any other is refused and changes nothing. */
  lemma UsableIff(cfg: Config, inputType: int, payload: Bytes, sim: SimDeploy, s: Node)
    requires NodeModel.Valid(s)
    ensures var m := Decode(cfg, inputType, payload, sim);
      && (m.Begin? <==> inputType == 240 && |payload| >= 48)
      && (m.Chunk? <==> inputType == 241 && |payload| >= 14)
      && (m.Deploy? <==> inputType == 242 && |payload| >= 52)
      && (!m.Begin? && !m.Chunk? && !m.Deploy? ==> Apply(cfg, s, m) == (s, Refused))
  {
  }

  lemma SizesFit(total: nat)
    requires 1 <= total <= MAX_WASM_MODULE_SIZE
    ensures 1 <= ChunkCount(total) < UINT32_RANGE && total < UINT32_RANGE
  {
  }

  // ---------- the session while it lasts ----------

  /** Chunk i came in at some point after message b and before message k. */
  ghost predicate Sent(c: Client, trace: seq<Message>, b: nat, k: nat, i: nat)
    requires k <= |trace| && i < ChunkCount(|c.bytes|)
  {
    exists p :: b < p < k && trace[p] == ChunkMessage(c, i)
  }

  /** The client's own message p makes progress: its BEGIN, or a chunk it had not sent before. */
  ghost predicate Advances(c: Client, trace: seq<Message>, b: nat, p: nat)
    requires p < |trace|
  {
    p == b || exists i: nat :: i < ChunkCount(|c.bytes|) && trace[p] == ChunkMessage(c, i) && !Sent(c, trace, b, p, i)
  }

  /** The last of them before k. */
  ghost predicate LastAdvance(c: Client, trace: seq<Message>, b: nat, q: nat, k: nat)
    requires k <= |trace|
  {
    b <= q < k && Advances(c, trace, b, q) && forall p :: q < p < k ==> !Advances(c, trace, b, p)
  }

  /** At message k the client's last progress is at most 32 ticks old. */
  ghost predicate Keeping(c: Client, trace: seq<Message>, run: seq<Node>, b: nat, k: nat)
    requires k < |trace| && |run| == |trace| + 1
  {
    exists q: nat :: LastAdvance(c, trace, b, q, k) && run[k].tick <= run[q].tick + UPLOAD_STALE_TICKS
  }

  /** What may arrive between the client's BEGIN and its DEPLOY: anything, as long as every other BEGIN and every poll comes
      within 32 ticks of the client's last new chunk, nobody else sends chunks of this session, and it is not deployed
      before its last chunk was sent. */
  ghost predicate Harmless(c: Client, trace: seq<Message>, run: seq<Node>, b: nat, k: nat)
    requires k < |trace| && |run| == |trace| + 1
  {
    match trace[k]
    case Begin(_) => Keeping(c, trace, run, b, k)
    case Poll => Keeping(c, trace, run, b, k)
    case Chunk(fields, _) =>
      fields.sessionId == c.sessionId ==> exists i: nat :: i < ChunkCount(|c.bytes|) && trace[k] == ChunkMessage(c, i)
    case Deploy(fields, _, _) =>
      fields.sessionId == c.sessionId ==> exists i: nat :: i < ChunkCount(|c.bytes|) && !Sent(c, trace, b, k, i)
    case _ => true
  }

  /** The session is the client's, and holds its bytes in every chunk received. */
  ghost predicate Holding(cfg: Config, c: Client, now: Node) {
    && now.upload.Some?
    && var u := now.upload.value;
    && WellSized(u)
    && u.sessionId == c.sessionId && u.totalSize == |c.bytes| && u.finalHash == cfg.k12(c.bytes)
    && forall i :: i in u.received ==> i * CHUNK_DATA_MAX <= |u.buf| && SplitChunk(u.buf, i) == SplitChunk(c.bytes, i)
  }

  /** Its idle clock shows the client's last progress. */
  ghost predicate OnTime(c: Client, trace: seq<Message>, run: seq<Node>, b: nat, k: nat)
    requires k <= |trace| && |run| == |trace| + 1
  {
    run[k].upload.Some? && exists q: nat :: LastAdvance(c, trace, b, q, k) && run[k].upload.value.lastProgressTick == run[q].tick
  }

  /** And the chunks received are those sent so far. */
  ghost predicate InFlight(cfg: Config, c: Client, trace: seq<Message>, run: seq<Node>, b: nat, k: nat)
    requires k <= |trace| && |run| == |trace| + 1
  {
    && Holding(cfg, c, run[k])
    && forall i: nat :: i < ChunkCount(|c.bytes|) ==> (i in run[k].upload.value.received <==> Sent(c, trace, b, k, i))
  }

  lemma BeginTaken(cfg: Config, c: Client, s: Node, sim: SimDeploy)
    requires Acceptable(cfg, c) && NodeModel.Valid(s)
    requires s.upload.None? || IdleTicks(s) > UPLOAD_STALE_TICKS
    ensures var after := Apply(cfg, s, BeginMessage(cfg, c, sim)).0;
      Holding(cfg, c, after) && after.upload.Some? && after.upload.value.received == {} && after.upload.value.lastProgressTick == s.tick
  {
    SizesFit(|c.bytes|);
    var m := BeginFields(c.sessionId, |c.bytes|, ChunkCount(|c.bytes|), cfg.k12(c.bytes));
    BeginRoundTrip(m);
    BeginOpensIff(s, m);
  }

  /** A chunk of the client is accepted exactly if it was not received before; then it is received and the clock starts over.
      Either way the rest of the session stays as it was. */
  lemma ChunkTaken(cfg: Config, c: Client, now: Node, i: nat)
    requires NodeModel.Valid(now) && Holding(cfg, c, now) && i < ChunkCount(|c.bytes|)
    ensures var (after, reply) := Apply(cfg, now, ChunkMessage(c, i));
      && Holding(cfg, c, after) && after.upload.Some? && after.upload.value.received == now.upload.value.received + {i}
      && (reply == Accepted <==> i !in now.upload.value.received)
      && after.upload.value.lastProgressTick == (if reply == Accepted then now.tick else now.upload.value.lastProgressTick)
  {
    ChunkStarts(|c.bytes|, i);
    var (u, body) := (now.upload.value, SplitChunk(c.bytes, i));
    var fields := ChunkFields(c.sessionId, i, |body|);
    if i !in u.received {
      assert ChunkFits(u, fields, body);
      var after := OnChunk(now, fields, body).0.upload.value;
      forall j | j in after.received
        ensures j * CHUNK_DATA_MAX <= |after.buf| && SplitChunk(after.buf, j) == SplitChunk(c.bytes, j)
      {
        WindowsAreSeparate(u.buf, i, body, j);
      }
    } else {
      assert u.received + {i} == u.received;
    }
  }

  lemma StillFresh(c: Client, trace: seq<Message>, run: seq<Node>, b: nat, k: nat)
    requires k < |trace| && |run| == |trace| + 1 && OnTime(c, trace, run, b, k) && Keeping(c, trace, run, b, k)
    ensures IdleTicks(run[k]) <= UPLOAD_STALE_TICKS
  {
    var q: nat :| LastAdvance(c, trace, b, q, k) && run[k].tick <= run[q].tick + UPLOAD_STALE_TICKS;
    assert run[k].upload.value.lastProgressTick == run[q].tick;
  }

  /** Any other harmless message leaves the session as it was. */
  lemma OthersPass(cfg: Config, c: Client, trace: seq<Message>, run: seq<Node>, b: nat, k: nat)
    requires k < |trace| && |run| == |trace| + 1 && Step(cfg, trace, run, k)
    requires InFlight(cfg, c, trace, run, b, k) && OnTime(c, trace, run, b, k) && Harmless(c, trace, run, b, k)
    requires forall i: nat :: i < ChunkCount(|c.bytes|) ==> trace[k] != ChunkMessage(c, i)
    ensures run[k + 1].upload == run[k].upload
  {
    var u := run[k].upload.value;
    FullSet(u.received, u.chunkCount);
    hide SplitChunk;
    hide LastAdvance;
    if trace[k].Begin? || trace[k].Poll? {
      StillFresh(c, trace, run, b, k);
    } else if trace[k].Deploy? && trace[k].deploy.sessionId == c.sessionId {
      var i: nat :| i < ChunkCount(|c.bytes|) && !Sent(c, trace, b, k, i);
      assert i !in u.received;
    }
  }

  /** From the client's BEGIN on, the session is the client's and has received exactly what was sent. */
  lemma {:induction false} Uploading(cfg: Config, c: Client, sim: SimDeploy, trace: seq<Message>, run: seq<Node>, b: nat, k: nat)
    requires Acceptable(cfg, c) && IsRun(cfg, trace, run) && b < k <= |trace|
    requires trace[b] == BeginMessage(cfg, c, sim) && (run[b].upload.None? || IdleTicks(run[b]) > UPLOAD_STALE_TICKS)
    requires forall p :: b < p < k ==> Harmless(c, trace, run, b, p)
    ensures InFlight(cfg, c, trace, run, b, k) && OnTime(c, trace, run, b, k)
    decreases k
  {
    hide InFlight;
    hide OnTime;
    hide Harmless;
    assert Step(cfg, trace, run, k - 1);
    if k - 1 == b {
      JustOpened(cfg, c, sim, trace, run, b);
    } else {
      Uploading(cfg, c, sim, trace, run, b, k - 1);
      UploadStep(cfg, c, trace, run, b, k - 1);
    }
  }

  lemma UploadStep(cfg: Config, c: Client, trace: seq<Message>, run: seq<Node>, b: nat, k: nat)
    requires b < k < |trace| && |run| == |trace| + 1 && Step(cfg, trace, run, k)
    requires InFlight(cfg, c, trace, run, b, k) && OnTime(c, trace, run, b, k) && Harmless(c, trace, run, b, k)
    ensures InFlight(cfg, c, trace, run, b, k + 1) && OnTime(c, trace, run, b, k + 1)
  {
    hide Apply;
    hide Holding;
    hide Sent;
    hide LastAdvance;
    hide Harmless;
    hide SplitChunk;
    if i: nat :| i < ChunkCount(|c.bytes|) && trace[k] == ChunkMessage(c, i) {
      OwnChunk(cfg, c, trace, run, b, k, i);
    } else {
      SentNext(c, trace, b, k + 1);
      OthersPass(cfg, c, trace, run, b, k);
      HeldOn(cfg, c, run[k], run[k + 1]);
      ClockKept(c, trace, run, b, k + 1);
    }
  }

  lemma JustOpened(cfg: Config, c: Client, sim: SimDeploy, trace: seq<Message>, run: seq<Node>, b: nat)
    requires Acceptable(cfg, c) && b < |trace| && |run| == |trace| + 1 && Step(cfg, trace, run, b)
    requires trace[b] == BeginMessage(cfg, c, sim) && (run[b].upload.None? || IdleTicks(run[b]) > UPLOAD_STALE_TICKS)
    ensures InFlight(cfg, c, trace, run, b, b + 1) && OnTime(c, trace, run, b, b + 1)
  {
    hide Apply;
    hide Holding;
    BeginTaken(cfg, c, run[b], sim);
    OneAdvance(c, trace, b, b);
  }

  lemma HeldOn(cfg: Config, c: Client, before: Node, after: Node)
    requires Holding(cfg, c, before) && after.upload == before.upload
    ensures Holding(cfg, c, after) && before.upload.Some?
  {
  }

  /** The client's own chunk, new or repeated. */
  lemma OwnChunk(cfg: Config, c: Client, trace: seq<Message>, run: seq<Node>, b: nat, k: nat, i: nat)
    requires b < k < |trace| && |run| == |trace| + 1 && Step(cfg, trace, run, k)
    requires InFlight(cfg, c, trace, run, b, k) && OnTime(c, trace, run, b, k)
    requires i < ChunkCount(|c.bytes|) && trace[k] == ChunkMessage(c, i)
    ensures InFlight(cfg, c, trace, run, b, k + 1) && OnTime(c, trace, run, b, k + 1)
  {
    hide Holding;
    hide Apply;
    hide Sent;
    hide LastAdvance;
    hide SplitChunk;
    ChunkTaken(cfg, c, run[k], i);
    SentNext(c, trace, b, k + 1);
    SameChunk(c, i);
    if Sent(c, trace, b, k, i) {
      ClockKept(c, trace, run, b, k + 1);
    } else {
      assert Advances(c, trace, b, k);
      assert LastAdvance(c, trace, b, k, k + 1) by { OneAdvance(c, trace, b, k); }
    }
  }

  lemma OneAdvance(c: Client, trace: seq<Message>, b: nat, k: nat)
    requires b <= k < |trace| && Advances(c, trace, b, k)
    ensures LastAdvance(c, trace, b, k, k + 1)
  {
  }

  lemma SameChunk(c: Client, i: nat)
    requires i < ChunkCount(|c.bytes|)
    ensures forall j: nat :: j < ChunkCount(|c.bytes|) && ChunkMessage(c, j) == ChunkMessage(c, i) ==> j == i
  {
  }

  /** A message that is no progress of the client's leaves its last progress where it was. */
  lemma ClockKept(c: Client, trace: seq<Message>, run: seq<Node>, b: nat, k: nat)
    requires b + 1 < k <= |trace| && |run| == |trace| + 1 && !Advances(c, trace, b, k - 1)
    requires OnTime(c, trace, run, b, k - 1) && run[k].upload.Some?
    requires run[k].upload.value.lastProgressTick == run[k - 1].upload.value.lastProgressTick
    ensures OnTime(c, trace, run, b, k)
  {
    var q: nat :| LastAdvance(c, trace, b, q, k - 1) && run[k - 1].upload.value.lastProgressTick == run[q].tick;
    assert LastAdvance(c, trace, b, q, k);
  }

  lemma SentNext(c: Client, trace: seq<Message>, b: nat, k: nat)
    requires b + 1 < k <= |trace|
    ensures forall i: nat :: i < ChunkCount(|c.bytes|) ==>
      (Sent(c, trace, b, k, i) <==> Sent(c, trace, b, k - 1, i) || trace[k - 1] == ChunkMessage(c, i))
  {
  }

  /** With every chunk in, the buffer is the module. */
  lemma AllArrived(cfg: Config, c: Client, now: Node)
    requires Holding(cfg, c, now) && forall i :: 0 <= i < now.upload.value.chunkCount ==> i in now.upload.value.received
    ensures |now.upload.value.received| == now.upload.value.chunkCount && now.upload.value.buf == c.bytes
  {
    var u := now.upload.value;
    AllOfThem(u.received, u.chunkCount);
    forall i | 0 <= i < u.chunkCount ensures i * CHUNK_DATA_MAX <= |c.bytes| {
      ChunkStarts(|c.bytes|, i);
    }
    var pieces := seq(u.chunkCount, i requires 0 <= i < u.chunkCount => SplitChunk(c.bytes, i));
    JoinWindows(c.bytes, pieces);
    JoinWindows(u.buf, pieces);
    assert c.bytes[..|c.bytes|] == c.bytes && u.buf[..|u.buf|] == u.buf;
  }

  lemma DeployCommits(cfg: Config, c: Client, sim: SimDeploy, s: Node)
    requires Acceptable(cfg, c) && NodeModel.Valid(s) && Holding(cfg, c, s) && s.upload.value.buf == c.bytes
    requires |s.upload.value.received| == s.upload.value.chunkCount
    ensures var after := Apply(cfg, s, DeployMessage(cfg, c, sim)).0;
      && after.upload.None?
      && after.deployments == s.deployments +
           if WASM_MAGIC <= c.bytes
           then [Deployment(c.slot, c.bytes, Some(cfg.contractName(DeployPayload(cfg, c))), NodeModel.Takes(s.staged, c.slot))]
           else []
  {
    var m := DeployFields(c.sessionId, c.slot, cfg.k12(c.bytes), WASM_ABI_VERSION);
    DeployRoundTrip(m, c.stateLayoutVersion, c.name);
    assert |c.bytes| >= 4 ==> (c.bytes[..4] == WASM_MAGIC <==> WASM_MAGIC <= c.bytes);
    assert Refusal(cfg, s, m) == if WASM_MAGIC <= c.bytes then None else Some(NotWasm);
  }

  /** Encoding, any order of arrival, any harmless messages between, decoding and reassembly give the module back: the
      simulator is handed exactly the client's bytes for the client's slot, with whatever was staged whole for that slot,
      and the session is over. A module that does not start with the wasm magic is refused instead, and never reaches the
      simulator. */
  lemma UploadDelivers(cfg: Config, c: Client, sim: SimDeploy, trace: seq<Message>, run: seq<Node>, b: nat, d: nat)
    requires Acceptable(cfg, c) && IsRun(cfg, trace, run) && b < d < |trace|
    requires trace[b] == BeginMessage(cfg, c, sim) && (run[b].upload.None? || IdleTicks(run[b]) > UPLOAD_STALE_TICKS)
    requires forall i: nat :: i < ChunkCount(|c.bytes|) ==> Sent(c, trace, b, d, i)
    requires forall k :: b < k < d ==> Harmless(c, trace, run, b, k)
    requires trace[d] == DeployMessage(cfg, c, sim)
    ensures run[d + 1].upload.None?
    ensures run[d + 1].deployments == run[d].deployments +
      if WASM_MAGIC <= c.bytes
      then [Deployment(c.slot, c.bytes, Some(cfg.contractName(DeployPayload(cfg, c))), NodeModel.Takes(run[d].staged, c.slot))]
      else []
  {
    Uploading(cfg, c, sim, trace, run, b, d);
    AllArrived(cfg, c, run[d]);
    assert Step(cfg, trace, run, d);
    DeployCommits(cfg, c, sim, run[d]);
  }

  /** What such a client is told, unless a final verdict of its session already stands: "armed" when the module loads,
      "load-failed" when it does not, "not-wasm" when it is none. */
  lemma UploadIsReported(cfg: Config, c: Client, sim: SimDeploy, trace: seq<Message>, run: seq<Node>, b: nat, d: nat)
    requires Acceptable(cfg, c) && IsRun(cfg, trace, run) && b < d < |trace|
    requires trace[b] == BeginMessage(cfg, c, sim) && (run[b].upload.None? || IdleTicks(run[b]) > UPLOAD_STALE_TICKS)
    requires forall i: nat :: i < ChunkCount(|c.bytes|) ==> Sent(c, trace, b, d, i)
    requires forall k :: b < k < d ==> Harmless(c, trace, run, b, k)
    requires trace[d] == DeployMessage(cfg, c, sim)
    requires !Stands(run[d], c.sessionId) && (WASM_MAGIC <= c.bytes ==> sim.load != EngineFault)
    ensures run[d + 1].lastDeploy == Some(Outcome(c.sessionId, c.slot, run[d].tick,
      if !(WASM_MAGIC <= c.bytes) then NotWasm else if sim.load == Loaded then Armed else LoadFailed))
  {
    UploadDelivers(cfg, c, sim, trace, run, b, d);
    OutcomeIff(cfg, trace, run, d);
    DeployRoundTrip(DeployFields(c.sessionId, c.slot, cfg.k12(c.bytes), WASM_ABI_VERSION), c.stateLayoutVersion, c.name);
    if !(WASM_MAGIC <= c.bytes) {
      Uploading(cfg, c, sim, trace, run, b, d);
      AllArrived(cfg, c, run[d]);
      assert Reports(cfg, run[d], trace[d].deploy, sim.load, NotWasm);
    }
  }
}
