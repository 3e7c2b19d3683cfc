/** The deploy state of a node (packages/engine/src/transport.ts) as a value, and what each message does to it.
    Hashing, the simulator's answer to a deploy, and the text of a contract name are parameters. */
module NodeModel {
  import opened Wrappers
  import opened DeployWire

  const UPLOAD_STALE_TICKS: nat := 32
  const MAX_STAGED_STATE_BYTES: nat := 1024 * 1024 * 1024
  const WASM_MAGIC: Bytes := [0x00, 0x61, 0x73, 0x6d]

  datatype Config = Config(slotBase: nat, slotCount: nat, k12: Bytes -> Bytes, contractName: Bytes -> string)

  datatype Upload = Upload(sessionId: nat, totalSize: nat, chunkCount: nat, buf: Bytes, received: set<nat>, finalHash: Bytes, lastProgressTick: nat)
  datatype Staged = Staged(bytes: Bytes, receivedBytes: nat)

  datatype Code = BadSlot | AbiMismatch | SessionMismatch | Incomplete | HashMismatch | NotWasm | LoadFailed | Armed
  datatype Outcome = Outcome(sessionId: nat, slot: nat, tick: nat, code: Code)

  /** How the simulator answered a deploy, and the contracts it then holds. */
  datatype Load = Loaded | LoadError | EngineFault
  datatype SimDeploy = SimDeploy(load: Load, contracts: set<nat>)

  /** One call of the simulator's deploy. */
  datatype Deployment = Deployment(slot: nat, wasm: Bytes, name: Option<string>, initialState: Option<Bytes>)

  datatype Node = Node(
    tick: nat,
    upload: Option<Upload>,
    lastDeploy: Option<Outcome>,
    staged: map<int, Staged>,
    slotsByName: map<string, nat>,
    contracts: set<nat>,
    deployments: seq<Deployment>)

  datatype Reply = Accepted | Refused | Faulted

  // ---------- the upload session ----------

  function IdleTicks(n: Node): nat {
    if n.upload.Some? && n.tick > n.upload.value.lastProgressTick then n.tick - n.upload.value.lastProgressTick else 0
  }

  function DropStale(n: Node): Node {
    if n.upload.Some? && IdleTicks(n) > UPLOAD_STALE_TICKS then n.(upload := None) else n
  }

  ghost predicate Valid(n: Node) {
    UploadValid(n.upload) && StagedValid(n.staged)
  }

  ghost predicate UploadValid(u: Option<Upload>) {
    u.Some? ==> WellSized(u.value)
  }

  ghost predicate StagedValid(staged: map<int, Staged>) {
    forall s :: s in staged ==> staged[s].receivedBytes <= |staged[s].bytes| && |staged[s].bytes| > 0
  }

  ghost predicate WellSized(u: Upload) {
    && |u.buf| == u.totalSize && u.totalSize >= 1
    && u.chunkCount == ChunkCount(u.totalSize)
    && forall i :: i in u.received ==> i < u.chunkCount
  }

  function OnBegin(n: Node, m: BeginFields): (r: (Node, Reply))
    ensures Valid(n) ==> Valid(r.0)
  {
    var d := DropStale(n);
    if d.upload.Some? then (d, if d.upload.value.sessionId == m.sessionId then Accepted else Refused)
    else if m.totalSize < 1 || m.totalSize > MAX_WASM_MODULE_SIZE then (d, Refused)
    else if m.chunkCount != ChunkCount(m.totalSize) then (d, Refused)
    else (d.(upload := Some(Upload(m.sessionId, m.totalSize, m.chunkCount, Zeros(m.totalSize), {}, m.finalHash, d.tick))), Accepted)
  }

  /** The tests a chunk passes, in order; the last one makes the write land inside the buffer. */
  predicate ChunkFits(u: Upload, m: ChunkFields, body: Bytes) {
    && m.sessionId == u.sessionId
    && m.seqNo < u.chunkCount
    && m.seqNo !in u.received
    && m.len == Least(CHUNK_DATA_MAX, u.totalSize - m.seqNo * CHUNK_DATA_MAX)
    && |body| == m.len
  }

  lemma ChunkInBounds(u: Upload, i: nat)
    requires WellSized(u) && i < u.chunkCount
    ensures 0 <= i * CHUNK_DATA_MAX < u.totalSize
    ensures 0 < Least(CHUNK_DATA_MAX, u.totalSize - i * CHUNK_DATA_MAX)
  {
  }

  ghost function OnChunk(n: Node, m: ChunkFields, body: Bytes): (r: (Node, Reply))
    requires Valid(n)
    ensures Valid(r.0)
  {
    if n.upload.None? || !ChunkFits(n.upload.value, m, body) then (n, Refused)
    else
      var u := n.upload.value;
      ChunkInBounds(u, m.seqNo);
      (n.(upload := Some(u.(
        buf := Put(u.buf, m.seqNo * CHUNK_DATA_MAX, body),
        received := u.received + {m.seqNo},
        lastProgressTick := n.tick))), Accepted)
  }

  // ---------- deploying ----------

  /** A session's verdict stands once given, unless it was only "incomplete". */
  function Verdict(last: Option<Outcome>, outcome: Outcome): Option<Outcome> {
    if last.Some? && last.value.sessionId == outcome.sessionId && last.value.code != Incomplete then last else Some(outcome)
  }

  function Record(n: Node, sessionId: nat, slot: nat, code: Code): Node {
    n.(lastDeploy := Verdict(n.lastDeploy, Outcome(sessionId, slot, n.tick, code)))
  }

  /** The staged state a deploy of `slot` takes: only a complete one. */
  function Takes(staged: map<int, Staged>, slot: int): Option<Bytes> {
    if slot in staged && staged[slot].receivedBytes == |staged[slot].bytes| then Some(staged[slot].bytes) else None
  }

  function FirstFree(from: nat, taken: set<nat>): (slot: nat)
    ensures slot >= from && slot !in taken
    ensures forall s :: from <= s < slot ==> s in taken
    decreases |AtLeast(from, taken)|
  {
    if from in taken then
      FewerAbove(from, taken);
      FirstFree(from + 1, taken)
    else from
  }

  ghost function AtLeast(from: nat, taken: set<nat>): set<nat> {
    set t | t in taken && t >= from
  }

  lemma FewerAbove(from: nat, taken: set<nat>)
    requires from in taken
    ensures |AtLeast(from + 1, taken)| < |AtLeast(from, taken)|
  {
    assert AtLeast(from, taken) == AtLeast(from + 1, taken) + {from};
  }

  function ResolveSlot(cfg: Config, slotsByName: map<string, nat>, contracts: set<nat>, slot: Option<nat>, name: Option<string>): nat {
    if slot.Some? then slot.value
    else if name.Some? && name.value in slotsByName then slotsByName[name.value]
    else FirstFree(cfg.slotBase, contracts + slotsByName.Values)
  }

  /** An allocated slot lies in the dynamic range exactly when the range still has a free slot: nothing else stops the
      search at the end of the range. */
  lemma AllocatedInRangeIff(cfg: Config, slotsByName: map<string, nat>, contracts: set<nat>, name: Option<string>)
    requires name.Some? ==> name.value !in slotsByName
    ensures var taken := contracts + slotsByName.Values;
            ResolveSlot(cfg, slotsByName, contracts, None, name) < cfg.slotBase + cfg.slotCount
            <==> exists s :: cfg.slotBase <= s < cfg.slotBase + cfg.slotCount && s !in taken
  {
    var taken := contracts + slotsByName.Values;
    assert FirstFree(cfg.slotBase, taken) !in taken;
  }

  function DeployAt(n: Node, slot: nat, name: Option<string>, wasm: Bytes, sim: SimDeploy): Node {
    n.(staged := n.staged - {slot},
       deployments := n.deployments + [Deployment(slot, wasm, name, Takes(n.staged, slot))],
       contracts := sim.contracts,
       slotsByName := if sim.load == Loaded && name.Some? then n.slotsByName[name.value := slot] else n.slotsByName)
  }

  /** The first check a DEPLOY fails, in the order the node makes them. */
  function Refusal(cfg: Config, n: Node, m: DeployFields): Option<Code> {
    if m.targetSlot < cfg.slotBase || m.targetSlot >= cfg.slotBase + cfg.slotCount then Some(BadSlot)
    else if m.abiVersion != WASM_ABI_VERSION then Some(AbiMismatch)
    else if n.upload.None? || m.sessionId != n.upload.value.sessionId then Some(SessionMismatch)
    else
      var u := n.upload.value;
      if |u.received| != u.chunkCount then Some(Incomplete)
      else if cfg.k12(u.buf) != u.finalHash then Some(HashMismatch)
      else if m.finalHash != u.finalHash then Some(HashMismatch)
      else if |u.buf| < 4 || u.buf[..4] != WASM_MAGIC then Some(NotWasm)
      else None
  }

  function OnDeploy(cfg: Config, n: Node, m: DeployFields, name: string, sim: SimDeploy): (r: (Node, Reply))
    ensures Valid(n) ==> Valid(r.0)
  {
    match Refusal(cfg, n, m)
    case Some(NotWasm) => (Record(n.(upload := None), m.sessionId, m.targetSlot, NotWasm), Refused)
    case Some(code) => (Record(n, m.sessionId, m.targetSlot, code), Refused)
    case None => Commit(n, m, name, sim)
  }

  /** Past every check: the module is handed to the simulator and the session is freed, whatever comes back. */
  function Commit(n: Node, m: DeployFields, name: string, sim: SimDeploy): (r: (Node, Reply))
    requires n.upload.Some?
    ensures Valid(n) ==> Valid(r.0)
  {
    var after := DeployAt(n, m.targetSlot, Some(name), n.upload.value.buf, sim).(upload := None);
    match sim.load
    case Loaded => (Record(after, m.sessionId, m.targetSlot, Armed), Accepted)
    case LoadError => (Record(after, m.sessionId, m.targetSlot, LoadFailed), Refused)
    case EngineFault => (after, Faulted)
  }

  // ---------- staged states ----------

  predicate StageInRange(cfg: Config, slot: int, total: int) {
    1 <= slot < cfg.slotBase + cfg.slotCount && 0 <= total <= MAX_STAGED_STATE_BYTES
  }

  ghost function OnStage(cfg: Config, n: Node, slot: int, offset: int, total: int, chunk: Bytes): (r: (Node, Reply))
    requires Valid(n)
    ensures Valid(r.0)
  {
    if !StageInRange(cfg, slot, total) then (n, Refused)
    else if total == 0 then (n.(staged := n.staged - {slot}), Accepted)
    else
      // an offset-0 chunk restarts the entry before anything else is checked
      AppendStage(if offset == 0 then n.(staged := n.staged[slot := Staged(Zeros(total), 0)]) else n, slot, offset, total, chunk)
  }

  ghost function AppendStage(n: Node, slot: int, offset: int, total: int, chunk: Bytes): (r: (Node, Reply))
    requires Valid(n)
    ensures Valid(r.0)
  {
    if slot !in n.staged || |n.staged[slot].bytes| != total || offset != n.staged[slot].receivedBytes then (n, Refused)
    else if offset + |chunk| > total then (n, Refused)
    else (n.(staged := n.staged[slot := Staged(Put(n.staged[slot].bytes, offset, chunk), offset + |chunk|)]), Accepted)
  }

  // ---------- messages and runs ----------

  datatype Message =
    | Begin(begin: BeginFields)
    | Chunk(chunk: ChunkFields, body: Bytes)
    | Deploy(deploy: DeployFields, contract: string, sim: SimDeploy)
    | Unusable
    | Poll
    | TickTo(tick: nat)
    | Stage(slot: int, offset: int, total: int, bytes: Bytes)
    | DirectDeploy(at: Option<nat>, name: Option<string>, wasm: Bytes, sim: SimDeploy)

  /** A transaction to the deploy address, by its input type and payload. */
  function Decode(cfg: Config, inputType: int, payload: Bytes, sim: SimDeploy): Message {
    if inputType == UPLOAD_BEGIN && |payload| >= BEGIN_SIZE then Begin(ParseBegin(payload))
    else if inputType == UPLOAD_CHUNK && |payload| >= CHUNK_HEADER_SIZE then Chunk(ParseChunk(payload), payload[CHUNK_HEADER_SIZE..])
    else if inputType == DEPLOY && |payload| >= DEPLOY_HEADER_SIZE then Deploy(ParseDeploy(payload), cfg.contractName(payload), sim)
    else Unusable
  }

  ghost function Apply(cfg: Config, n: Node, m: Message): (r: (Node, Reply))
    requires Valid(n)
    ensures Valid(r.0)
  {
    match m
    case Begin(fields) => OnBegin(n, fields)
    case Chunk(fields, body) => OnChunk(n, fields, body)
    case Deploy(fields, name, sim) => OnDeploy(cfg, n, fields, name, sim)
    case Unusable => (n, Refused)
    case Poll => (DropStale(n), Accepted)
    case TickTo(t) => (n.(tick := t), Accepted)
    case Stage(slot, offset, total, bytes) => OnStage(cfg, n, slot, offset, total, bytes)
    case DirectDeploy(at, name, wasm, sim) =>
      (DeployAt(n, ResolveSlot(cfg, n.slotsByName, n.contracts, at, name), name, wasm, sim),
       match sim.load case Loaded => Accepted case LoadError => Refused case EngineFault => Faulted)
  }

  /** A run: the states before, between and after the messages. */
  ghost predicate IsRun(cfg: Config, trace: seq<Message>, run: seq<Node>) {
    && |run| == |trace| + 1
    && Valid(run[0])
    && forall k :: 0 <= k < |trace| ==> Step(cfg, trace, run, k)
  }

  ghost predicate Step(cfg: Config, trace: seq<Message>, run: seq<Node>, k: nat)
    requires k < |trace| && |run| == |trace| + 1
  {
    Valid(run[k]) && run[k + 1] == Apply(cfg, run[k], trace[k]).0
  }
}
