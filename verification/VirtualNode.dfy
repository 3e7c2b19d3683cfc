/** The node itself (packages/engine/src/transport.ts): its fields, its byte buffers filled in place, and one
    method per message. Every method is tied to the value model: `Abs()` after is the model's answer on `Abs()` before. */
module VirtualNode {
  import opened Wrappers
  import opened DeployWire
  import opened NodeModel

  class UploadSession {
    const sessionId: nat
    const totalSize: nat
    const chunkCount: nat
    const buf: array<Byte>
    const finalHash: Bytes
    var received: set<nat>
    var lastProgressTick: nat

    constructor (sessionId: nat, totalSize: nat, chunkCount: nat, finalHash: Bytes, tick: nat)
      ensures fresh(buf)
      ensures Abs() == Upload(sessionId, totalSize, chunkCount, Zeros(totalSize), {}, finalHash, tick)
    {
      this.sessionId, this.totalSize, this.chunkCount, this.finalHash := sessionId, totalSize, chunkCount, finalHash;
      received, lastProgressTick := {}, tick;
      buf := new Byte[totalSize](_ => 0);
    }

    ghost function Abs(): Upload
      reads this, buf
    {
      Upload(sessionId, totalSize, chunkCount, buf[..], received, finalHash, lastProgressTick)
    }
  }

  class StagedState {
    const bytes: array<Byte>
    var receivedBytes: nat

    constructor (total: nat)
      ensures fresh(bytes) && Abs() == Staged(Zeros(total), 0)
    {
      bytes := new Byte[total](_ => 0);
      receivedBytes := 0;
    }

    ghost function Abs(): Staged
      reads this, bytes
    {
      Staged(bytes[..], receivedBytes)
    }
  }

  /** `target.set(data, offset)` of a byte array. */
  method SetBytes(target: array<Byte>, data: Bytes, offset: nat)
    requires offset + |data| <= target.Length
    modifies target
    ensures target[..] == Put(old(target[..]), offset, data)
  {
    forall i | 0 <= i < |data| {
      target[offset + i] := data[i];
    }
  }

  class VirtualNode {
    const cfg: Config
    var upload: UploadSession?
    var lastDeploy: Option<Outcome>
    var stagedStates: map<int, StagedState>
    var slotsByName: map<string, nat>
    /** The simulator's clock and contract table, and a record of every deploy handed to it. */
    var currentTick: nat
    var contracts: set<nat>
    var deployments: seq<Deployment>

    ghost function UploadObjects(): set<object>
      reads `upload
    {
      if upload == null then {} else {upload, upload.buf}
    }

    ghost function StagedObjects(): set<object>
      reads `stagedStates
    {
      (set s | s in stagedStates :: stagedStates[s] as object) + (set s | s in stagedStates :: stagedStates[s].bytes as object)
    }

    ghost function Footprint(): set<object>
      reads `upload, `stagedStates
    {
      {this} + UploadObjects() + StagedObjects()
    }

    /** No two buffers are the same array. */
    ghost predicate Separate()
      reads `upload, `stagedStates
    {
      && UploadObjects() !! StagedObjects()
      && forall s, t :: s in stagedStates && t in stagedStates && s != t ==>
           stagedStates[s] != stagedStates[t] && stagedStates[s].bytes != stagedStates[t].bytes
    }

    ghost function AbsUpload(): Option<Upload>
      reads `upload, UploadObjects()
    {
      if upload == null then None else Some(upload.Abs())
    }

    ghost function AbsStaged(): map<int, Staged>
      reads `stagedStates, StagedObjects()
    {
      map s | s in stagedStates :: stagedStates[s].Abs()
    }

    ghost function Abs(): Node
      reads this, Footprint()
    {
      Node(currentTick, AbsUpload(), lastDeploy, AbsStaged(), slotsByName, contracts, deployments)
    }

    ghost predicate Valid()
      reads this, Footprint()
    {
      Separate() && UploadValid(AbsUpload()) && StagedValid(AbsStaged())
    }

    constructor (cfg: Config, tick: nat, contracts: set<nat>)
      ensures this.cfg == cfg && Valid() && fresh(Footprint())
      ensures Abs() == Node(tick, None, None, map[], map[], contracts, [])
    {
      this.cfg := cfg;
      upload, lastDeploy, stagedStates, slotsByName := null, None, map[], map[];
      currentTick, this.contracts, deployments := tick, contracts, [];
    }

    // ---------- the upload session ----------

    method UploadIdleTicks() returns (idle: nat)
      requires Valid()
      ensures idle == IdleTicks(Abs())
    {
      idle := if upload != null && currentTick > upload.lastProgressTick then currentTick - upload.lastProgressTick else 0;
    }

    method DropStaleUpload()
      requires Valid()
      modifies `upload
      ensures Valid() && Footprint() <= old(Footprint())
      ensures Abs() == DropStale(old(Abs()))
      ensures upload == null || upload == old(upload)
    {
      var idle := UploadIdleTicks();
      if upload != null && idle > UPLOAD_STALE_TICKS {
        upload := null;
      }
    }

    /** The upload half of the status the node reports: `missing` is exactly what has not arrived, in order. */
    method DynUpload() returns (active: bool, missing: seq<nat>, receivedCount: nat, complete: bool)
      requires Valid()
      modifies `upload
      ensures Valid() && Footprint() <= old(Footprint())
      ensures Abs() == DropStale(old(Abs()))
      ensures active == Abs().upload.Some?
      ensures active ==>
        && (forall i :: i in missing <==> 0 <= i < upload.chunkCount && i !in upload.received)
        && (forall i, j :: 0 <= i < j < |missing| ==> missing[i] < missing[j])
        && receivedCount == |upload.received| && |missing| + receivedCount == upload.chunkCount
        && (complete <==> |upload.received| == upload.chunkCount)
    {
      DropStaleUpload();
      active, missing, receivedCount, complete := false, [], 0, false;
      if upload == null {
        return;
      }
      active := true;
      ghost var have: set<nat> := {};
      for index := 0 to upload.chunkCount
        invariant forall i :: i in missing <==> 0 <= i < index && i !in upload.received
        invariant forall i, j :: 0 <= i < j < |missing| ==> missing[i] < missing[j]
        invariant forall i :: 0 <= i < |missing| ==> missing[i] < index
        invariant have == (set i | i in upload.received && i < index)
        invariant |missing| + |have| == index
      {
        if index !in upload.received {
          missing := missing + [index];
        } else {
          assert index !in have;
          have := have + {index};
        }
        assert have == (set i | i in upload.received && i < index + 1);
      }
      assert have == upload.received;
      receivedCount := |upload.received|;
      complete := |missing| == 0;
    }

    method HandleUploadBegin(message: BeginFields) returns (reply: Reply)
      requires Valid()
      modifies `upload
      ensures Valid() && fresh(Footprint() - old(Footprint()))
      ensures (Abs(), reply) == OnBegin(old(Abs()), message)
    {
      DropStaleUpload();
      if upload != null {
        return if upload.sessionId != message.sessionId then Refused else Accepted;
      }
      if message.totalSize < 1 || message.totalSize > MAX_WASM_MODULE_SIZE {
        return Refused;
      }
      if message.chunkCount != ChunkCount(message.totalSize) {
        return Refused;
      }
      upload := new UploadSession(message.sessionId, message.totalSize, message.chunkCount, message.finalHash, currentTick);
      return Accepted;
    }

    method HandleUploadChunk(message: ChunkFields, body: Bytes) returns (reply: Reply)
      requires Valid()
      modifies UploadObjects()
      ensures Valid() && Footprint() == old(Footprint())
      ensures (Abs(), reply) == OnChunk(old(Abs()), message, body)
    {
      if upload == null {
        return Refused;
      }
      if message.sessionId != upload.sessionId {
        return Refused;
      }
      if message.seqNo >= upload.chunkCount {
        return Refused;
      }
      if message.seqNo in upload.received {
        return Refused;
      }
      var offset := message.seqNo * CHUNK_DATA_MAX;
      var expectedLength := Least(CHUNK_DATA_MAX, upload.totalSize - offset);
      if message.len != expectedLength || |body| != message.len {
        return Refused;
      }
      ChunkInBounds(upload.Abs(), message.seqNo);
      SetBytes(upload.buf, body, offset);
      upload.received := upload.received + {message.seqNo};
      upload.lastProgressTick := currentTick;
      return Accepted;
    }

    // ---------- deploying ----------

    /** No new object came in, and the ones left stand where they stood. */
    twostate predicate Sheds()
      reads `upload, `stagedStates
    {
      && (upload == null || upload == old(upload))
      && forall s :: s in stagedStates ==> s in old(stagedStates) && stagedStates[s] == old(stagedStates)[s]
    }

    method RecordDeployOutcome(sessionId: nat, slot: nat, code: Code)
      modifies `lastDeploy
      ensures lastDeploy == Verdict(old(lastDeploy), Outcome(sessionId, slot, currentTick, code))
    {
      if lastDeploy.Some? && lastDeploy.value.sessionId == sessionId && lastDeploy.value.code != Incomplete {
        return;
      }
      lastDeploy := Some(Outcome(sessionId, slot, currentTick, code));
    }

    /** Whatever was staged for the slot is gone afterwards, taken or not. */
    method TakeStagedState(slot: int) returns (state: Option<Bytes>)
      modifies `stagedStates
      ensures stagedStates == old(stagedStates) - {slot}
      ensures state == Takes(old(AbsStaged()), slot)
      ensures AbsStaged() == old(AbsStaged()) - {slot}
    {
      state := None;
      if slot in stagedStates {
        var staged := stagedStates[slot];
        if staged.receivedBytes == staged.bytes.Length {
          state := Some(staged.bytes[..]);
        }
      }
      stagedStates := stagedStates - {slot};
    }

    method ResolveDeploymentSlot(explicitSlot: Option<nat>, name: Option<string>) returns (slot: nat)
      ensures slot == ResolveSlot(cfg, slotsByName, contracts, explicitSlot, name)
    {
      if explicitSlot.Some? {
        return explicitSlot.value;
      }
      if name.Some? && name.value in slotsByName {
        return slotsByName[name.value];
      }
      var taken := slotsByName.Values;
      slot := cfg.slotBase;
      while slot in contracts || slot in taken
        invariant FirstFree(cfg.slotBase, contracts + taken) == FirstFree(slot, contracts + taken)
        decreases |AtLeast(slot, contracts + taken)|
      {
        FewerAbove(slot, contracts + taken);
        slot := slot + 1;
      }
    }

    /** The simulator's part of a deploy: what it was handed is on record, how it answers is given. */
    method SimulatorDeploy(slot: nat, wasm: Bytes, name: Option<string>, initialState: Option<Bytes>, sim: SimDeploy) returns (load: Load)
      modifies `contracts, `deployments
      ensures load == sim.load && contracts == sim.contracts
      ensures deployments == old(deployments) + [Deployment(slot, wasm, name, initialState)]
    {
      deployments := deployments + [Deployment(slot, wasm, name, initialState)];
      contracts := sim.contracts;
      load := sim.load;
    }

    method DeployModule(wasm: Bytes, explicitSlot: Option<nat>, name: Option<string>, sim: SimDeploy) returns (slot: nat, load: Load)
      modifies `stagedStates, `contracts, `deployments, `slotsByName
      ensures slot == ResolveSlot(cfg, old(slotsByName), old(contracts), explicitSlot, name) && load == sim.load
      ensures stagedStates == old(stagedStates) - {slot}
      ensures Abs() == DeployAt(old(Abs()), slot, name, wasm, sim)
    {
      slot := ResolveDeploymentSlot(explicitSlot, name);
      var initialState := TakeStagedState(slot);
      load := SimulatorDeploy(slot, wasm, name, initialState, sim);
      if load == Loaded && name.Some? {
        slotsByName := slotsByName[name.value := slot];
      }
      assert AbsUpload() == old(AbsUpload());
      assert AbsStaged() == old(AbsStaged()) - {slot};
    }

    /** The checks of a DEPLOY, in the order a core node makes them. */
    method CheckDeploy(message: DeployFields) returns (refusal: Option<Code>)
      requires Valid()
      ensures refusal == Refusal(cfg, Abs(), message)
    {
      if message.targetSlot < cfg.slotBase || message.targetSlot >= cfg.slotBase + cfg.slotCount {
        return Some(BadSlot);
      }
      if message.abiVersion != WASM_ABI_VERSION {
        return Some(AbiMismatch);
      }
      if upload == null || message.sessionId != upload.sessionId {
        return Some(SessionMismatch);
      }
      if |upload.received| != upload.chunkCount {
        return Some(Incomplete);
      }
      var bytes := upload.buf[..];
      if cfg.k12(bytes) != upload.finalHash {
        return Some(HashMismatch);
      }
      if message.finalHash != upload.finalHash {
        return Some(HashMismatch);
      }
      if |bytes| < 4 || bytes[0] != 0x00 || bytes[1] != 0x61 || bytes[2] != 0x73 || bytes[3] != 0x6d {
        assert |bytes| >= 4 ==> forall k :: 0 <= k < 4 ==> bytes[..4][k] == bytes[k];
        return Some(NotWasm);
      }
      assert bytes[..4] == WASM_MAGIC;
      return None;
    }

    /** From the wasm check on the session is freed whichever way the deploy goes. */
    method HandleDeploy(message: DeployFields, name: string, sim: SimDeploy) returns (reply: Reply)
      requires Valid()
      modifies this
      ensures Sheds()
      ensures (Abs(), reply) == OnDeploy(cfg, old(Abs()), message, name, sim)
    {
      var refusal := CheckDeploy(message);
      if refusal.Some? {
        if refusal.value == NotWasm {
          upload := null;
        }
        RecordDeployOutcome(message.sessionId, message.targetSlot, refusal.value);
        return Refused;
      }
      reply := Load(message, name, sim);
    }

    method Load(message: DeployFields, name: string, sim: SimDeploy) returns (reply: Reply)
      requires upload != null
      modifies this
      ensures upload == null && stagedStates == old(stagedStates) - {message.targetSlot}
      ensures (Abs(), reply) == Commit(old(Abs()), message, name, sim)
    {
      ghost var before := Abs();
      var slot, load := DeployModule(upload.buf[..], Some(message.targetSlot), Some(name), sim);
      assert slot == message.targetSlot;
      assert Abs() == DeployAt(before, slot, Some(name), before.upload.value.buf, sim);
      upload := null;
      ghost var after := Abs();
      assert after == DeployAt(before, slot, Some(name), before.upload.value.buf, sim).(upload := None);
      match load {
        case Loaded =>
          RecordDeployOutcome(message.sessionId, message.targetSlot, Armed);
          assert Abs() == Record(after, message.sessionId, message.targetSlot, Armed);
          reply := Accepted;
        case LoadError =>
          RecordDeployOutcome(message.sessionId, message.targetSlot, LoadFailed);
          assert Abs() == Record(after, message.sessionId, message.targetSlot, LoadFailed);
          reply := Refused;
        case EngineFault =>
          reply := Faulted;
      }
    }

    /** A transaction to the deploy address. */
    method HandleDeployTx(inputType: int, payload: Bytes, sim: SimDeploy) returns (reply: Reply)
      requires Valid()
      modifies Footprint()
      ensures Valid() && fresh(Footprint() - old(Footprint()))
      ensures (Abs(), reply) == Apply(cfg, old(Abs()), Decode(cfg, inputType, payload, sim))
    {
      reply := Refused;
      if inputType == UPLOAD_BEGIN {
        if |payload| >= BEGIN_SIZE {
          reply := HandleUploadBegin(ParseBegin(payload));
        }
      } else if inputType == UPLOAD_CHUNK {
        if |payload| >= CHUNK_HEADER_SIZE {
          reply := HandleUploadChunk(ParseChunk(payload), payload[CHUNK_HEADER_SIZE..]);
        }
      } else if inputType == DEPLOY {
        if |payload| >= DEPLOY_HEADER_SIZE {
          reply := HandleDeploy(ParseDeploy(payload), cfg.contractName(payload), sim);
        }
      }
    }

    // ---------- staged states ----------

    method RestartStaged(slot: int, total: nat)
      requires Valid() && total > 0
      modifies `stagedStates
      ensures Valid() && fresh(Footprint() - old(Footprint()))
      ensures Abs() == old(Abs()).(staged := old(Abs()).staged[slot := Staged(Zeros(total), 0)])
    {
      var restarted := new StagedState(total);
      ghost var before := AbsStaged();
      stagedStates := stagedStates[slot := restarted];
      assert AbsStaged() == before[slot := Staged(Zeros(total), 0)];
    }

    method AppendStaged(slot: int, chunk: Bytes)
      requires Valid() && slot in stagedStates
      requires stagedStates[slot].receivedBytes + |chunk| <= stagedStates[slot].bytes.Length
      modifies stagedStates[slot], stagedStates[slot].bytes
      ensures Valid() && Footprint() == old(Footprint())
      ensures var s := old(Abs()).staged[slot];
              Abs() == old(Abs()).(staged := old(Abs()).staged[slot :=
                Staged(Put(s.bytes, s.receivedBytes, chunk), s.receivedBytes + |chunk|)])
    {
      var staged := stagedStates[slot];
      SetBytes(staged.bytes, chunk, staged.receivedBytes);
      staged.receivedBytes := staged.receivedBytes + |chunk|;
      forall s | s in stagedStates && s != slot ensures stagedStates[s].Abs() == old(stagedStates[s].Abs()) {
      }
      ghost var now := staged.Abs();
      assert AbsStaged() == old(AbsStaged())[slot := now];
    }

    method StageState(slot: int, offset: int, total: int, chunk: Bytes) returns (reply: Reply)
      requires Valid()
      modifies Footprint()
      ensures Valid() && fresh(Footprint() - old(Footprint()))
      ensures (Abs(), reply) == OnStage(cfg, old(Abs()), slot, offset, total, chunk)
    {
      if !(1 <= slot < cfg.slotBase + cfg.slotCount) {
        return Refused;
      }
      if total < 0 || total > MAX_STAGED_STATE_BYTES {
        return Refused;
      }
      if total == 0 {
        stagedStates := stagedStates - {slot};
        assert AbsStaged() == old(AbsStaged()) - {slot};
        return Accepted;
      }
      if offset == 0 {
        RestartStaged(slot, total);
      }
      reply := AppendChunk(slot, offset, total, chunk);
    }

    method AppendChunk(slot: int, offset: int, total: int, chunk: Bytes) returns (reply: Reply)
      requires Valid()
      modifies StagedObjects()
      ensures Valid() && Footprint() == old(Footprint())
      ensures (Abs(), reply) == AppendStage(old(Abs()), slot, offset, total, chunk)
    {
      if slot !in stagedStates {
        return Refused;
      }
      var staged := stagedStates[slot];
      if staged.bytes.Length != total || offset != staged.receivedBytes {
        return Refused;
      }
      if offset + |chunk| > total {
        return Refused;
      }
      AppendStaged(slot, chunk);
      return Accepted;
    }
  }
}
