/** What holds over every run of messages: where a deployed module came from, that chunk order is free, that the
    one upload slot cannot be held for ever, and that a session's verdict stands. */
module NodeRuns {
  import opened Sequences
  import opened Wrappers
  import opened DeployWire
  import opened NodeModel

  // ---------- where a session's bytes come from ----------

  /** The UPLOAD_BEGIN `m` opens a session in state `s`. */
  predicate OpensIn(s: Node, m: Message) {
    m.Begin? && DropStale(s).upload.None? && OnBegin(s, m.begin).1 == Accepted
  }

  /** The UPLOAD_CHUNK `m` is taken in state `s`. */
  predicate TakenIn(s: Node, m: Message) {
    m.Chunk? && s.upload.Some? && ChunkFits(s.upload.value, m.chunk, m.body)
  }

  /** Chunk number `i` of session `u`, opened by message `b`, came with message `c`, and its bytes still stand. */
  ghost predicate Delivered(trace: seq<Message>, run: seq<Node>, u: Upload, b: nat, i: nat, c: nat)
    requires |run| >= |trace|
  {
    && b < c < |trace| && TakenIn(run[c], trace[c])
    && trace[c].chunk.seqNo == i && trace[c].chunk.sessionId == u.sessionId
    && i * CHUNK_DATA_MAX <= |u.buf| && SplitChunk(u.buf, i) == trace[c].body
  }

  /** Session `u` was opened by message `b` and by none since; the chunks taken since are exactly those at `pos`,
      one message for each chunk number. */
  ghost predicate Origin(trace: seq<Message>, run: seq<Node>, u: Upload, b: nat, pos: map<nat, nat>)
    requires |run| >= |trace|
  {
    && b < |trace| && OpensIn(run[b], trace[b])
    && u.sessionId == trace[b].begin.sessionId && u.totalSize == trace[b].begin.totalSize
    && u.chunkCount == trace[b].begin.chunkCount && u.finalHash == trace[b].begin.finalHash
    && pos.Keys == u.received
    && (forall i :: i in pos ==> Delivered(trace, run, u, b, i, pos[i]))
    && (forall c :: b < c < |trace| && TakenIn(run[c], trace[c]) ==>
          trace[c].chunk.seqNo in pos && pos[trace[c].chunk.seqNo] == c)
    && (forall c :: b < c < |trace| ==> !OpensIn(run[c], trace[c]))
  }

  /** A chunk's write fills its own window of the buffer and touches no other. */
  lemma WindowsAreSeparate(buf: Bytes, i: nat, data: Bytes, j: nat)
    requires i * CHUNK_DATA_MAX <= |buf| && |data| == Least(CHUNK_DATA_MAX, |buf| - i * CHUNK_DATA_MAX)
    requires j * CHUNK_DATA_MAX <= |buf|
    ensures SplitChunk(Put(buf, i * CHUNK_DATA_MAX, data), j) == if i == j then data else SplitChunk(buf, j)
  {
    if i < j {
      assert i * CHUNK_DATA_MAX + CHUNK_DATA_MAX <= j * CHUNK_DATA_MAX;
    } else if j < i {
      assert j * CHUNK_DATA_MAX + CHUNK_DATA_MAX <= i * CHUNK_DATA_MAX;
    }
    assert SplitChunk(Put(buf, i * CHUNK_DATA_MAX, data), j) == if i == j then data else SplitChunk(buf, j);
  }

  lemma OriginExtends(trace: seq<Message>, m: Message, run: seq<Node>, u: Upload, b: nat, pos: map<nat, nat>)
    requires |run| == |trace| + 1 && Origin(trace, run, u, b, pos)
    requires !OpensIn(run[|trace|], m) && !TakenIn(run[|trace|], m)
    ensures Origin(trace + [m], run, u, b, pos)
  {
    forall i | i in pos ensures Delivered(trace + [m], run, u, b, i, pos[i]) {
      assert Delivered(trace, run, u, b, i, pos[i]);
    }
  }

  lemma OriginGrows(trace: seq<Message>, m: Message, run: seq<Node>, u: Upload, b: nat, pos: map<nat, nat>)
    requires |run| == |trace| + 1 && Origin(trace, run, u, b, pos)
    requires TakenIn(run[|trace|], m) && run[|trace|].upload == Some(u) && WellSized(u)
    ensures var i := m.chunk.seqNo;
            && i * CHUNK_DATA_MAX + |m.body| <= |u.buf|
            && Origin(trace + [m], run,
                 u.(buf := Put(u.buf, i * CHUNK_DATA_MAX, m.body), received := u.received + {i}, lastProgressTick := run[|trace|].tick),
                 b, pos[i := |trace|])
  {
    var i := m.chunk.seqNo;
    ChunkInBounds(u, i);
    var u' := u.(buf := Put(u.buf, i * CHUNK_DATA_MAX, m.body), received := u.received + {i}, lastProgressTick := run[|trace|].tick);
    var pos' := pos[i := |trace|];
    WindowsAreSeparate(u.buf, i, m.body, i);
    forall j | j in pos' ensures Delivered(trace + [m], run, u', b, j, pos'[j]) {
      if j != i {
        assert Delivered(trace, run, u, b, j, pos[j]);
        WindowsAreSeparate(u.buf, i, m.body, j);
      }
    }
  }

  /** Every live session has an origin in the run so far. */
  lemma {:induction false} SessionOrigin(cfg: Config, trace: seq<Message>, run: seq<Node>) returns (b: nat, pos: map<nat, nat>)
    requires IsRun(cfg, trace, run) && run[0].upload.None?
    requires run[|trace|].upload.Some?
    ensures Origin(trace, run, run[|trace|].upload.value, b, pos)
    decreases |trace|
  {
    var cut := |trace| - 1;
    assert Step(cfg, trace, run, cut);
    var (s, m) := (run[cut], trace[cut]);
    assert trace == trace[..cut] + [m];
    if OpensIn(s, m) {
      b, pos := cut, map[];
    } else {
      PrefixIsRun(cfg, trace, run, cut);
      OtherwiseKept(cfg, s, m);
      b, pos := SessionOrigin(cfg, trace[..cut], run[..cut + 1]);
      OriginInRun(trace[..cut], run[..cut + 1], run, s.upload.value, b, pos);
      if TakenIn(s, m) {
        OriginGrows(trace[..cut], m, run[..cut + 1], s.upload.value, b, pos);
        OriginInRun(trace, run[..cut + 1], run, run[cut + 1].upload.value, b, pos[m.chunk.seqNo := cut]);
        pos := pos[m.chunk.seqNo := cut];
      } else {
        OriginExtends(trace[..cut], m, run[..cut + 1], s.upload.value, b, pos);
        OriginInRun(trace, run[..cut + 1], run, s.upload.value, b, pos);
      }
    }
  }

  lemma PrefixIsRun(cfg: Config, trace: seq<Message>, run: seq<Node>, cut: nat)
    requires IsRun(cfg, trace, run) && cut <= |trace|
    ensures IsRun(cfg, trace[..cut], run[..cut + 1])
  {
    var (trace', run') := (trace[..cut], run[..cut + 1]);
    forall k | 0 <= k < cut ensures Step(cfg, trace', run', k) {
      assert Step(cfg, trace, run, k);
    }
  }

  /** The origin is about the states before each message only. */
  lemma OriginInRun(trace: seq<Message>, run: seq<Node>, longer: seq<Node>, u: Upload, b: nat, pos: map<nat, nat>)
    requires |trace| <= |run| <= |longer| && run == longer[..|run|] && Origin(trace, run, u, b, pos)
    ensures Origin(trace, longer, u, b, pos)
  {
    forall i | i in pos ensures Delivered(trace, longer, u, b, i, pos[i]) {
      assert Delivered(trace, run, u, b, i, pos[i]);
    }
  }

  /** A message that opens no session only ends the live one, writes a chunk into it, or leaves it as it was. */
  lemma OtherwiseKept(cfg: Config, s: Node, m: Message)
    requires NodeModel.Valid(s) && !OpensIn(s, m) && Apply(cfg, s, m).0.upload.Some?
    ensures s.upload.Some? && WellSized(s.upload.value)
    ensures TakenIn(s, m) || Apply(cfg, s, m).0.upload == s.upload
  {
  }

  // ---------- completeness and reassembly ----------

  lemma ChunkStarts(total: nat, i: nat)
    requires i < ChunkCount(total)
    ensures i * CHUNK_DATA_MAX < total
  {
  }

  /** Bytes cut into windows and joined again. */
  lemma {:induction false} JoinWindows(bytes: Bytes, pieces: seq<Bytes>)
    requires |pieces| <= ChunkCount(|bytes|)
    requires forall i :: 0 <= i < |pieces| ==> i * CHUNK_DATA_MAX <= |bytes| && pieces[i] == SplitChunk(bytes, i)
    ensures Flatten(pieces) == bytes[..Least(|pieces| * CHUNK_DATA_MAX, |bytes|)]
  {
    if pieces != [] {
      var last := |pieces| - 1;
      ChunkStarts(|bytes|, last);
      JoinWindows(bytes, pieces[..last]);
    }
  }

  lemma AllWindows(bytes: Bytes, pieces: seq<Bytes>)
    requires |pieces| == ChunkCount(|bytes|)
    requires forall i :: 0 <= i < |pieces| ==> i * CHUNK_DATA_MAX <= |bytes| && pieces[i] == SplitChunk(bytes, i)
    ensures Flatten(pieces) == bytes
  {
    JoinWindows(bytes, pieces);
    assert bytes[..|bytes|] == bytes;
  }

  /** The bodies of the chunk messages at `pos`, by chunk number. */
  function Bodies(trace: seq<Message>, pos: map<nat, nat>, count: nat): (pieces: seq<Bytes>)
    requires forall i :: 0 <= i < count ==> i in pos && pos[i] < |trace| && trace[pos[i]].Chunk?
    ensures |pieces| == count && forall i :: 0 <= i < count ==> pieces[i] == trace[pos[i]].body
  {
    seq(count, i requires 0 <= i < count => trace[pos[i]].body)
  }

  /** Message `b` opened a session, and by message `d` each of its chunks had been taken, with one message each. */
  ghost predicate WholeSession(trace: seq<Message>, run: seq<Node>, b: nat, pos: map<nat, nat>, d: nat)
    requires d <= |trace| <= |run|
  {
    && b < d && OpensIn(run[b], trace[b])
    && (forall i: nat :: i in pos <==> i < trace[b].begin.chunkCount)
    && (forall i: nat :: i in pos ==> b < pos[i] < d && TakenIn(run[pos[i]], trace[pos[i]]) && trace[pos[i]].chunk.seqNo == i)
    && (forall c :: b < c < d && TakenIn(run[c], trace[c]) ==> trace[c].chunk.seqNo in pos && pos[trace[c].chunk.seqNo] == c)
  }

  lemma CompleteIsWhole(trace: seq<Message>, run: seq<Node>, u: Upload, b: nat, pos: map<nat, nat>, d: nat)
    requires d <= |trace| <= |run| && Origin(trace[..d], run, u, b, pos)
    requires WellSized(u) && |u.received| == u.chunkCount
    ensures WholeSession(trace, run, b, pos, d)
    ensures Flatten(Bodies(trace, pos, u.chunkCount)) == u.buf
  {
    hide SplitChunk;
    FullSet(u.received, u.chunkCount);
    forall i: nat | i in pos
      ensures b < pos[i] < d && TakenIn(run[pos[i]], trace[pos[i]]) && trace[pos[i]].chunk.seqNo == i
      ensures i * CHUNK_DATA_MAX <= |u.buf| && SplitChunk(u.buf, i) == trace[pos[i]].body
    {
      assert Delivered(trace[..d], run, u, b, i, pos[i]);
    }
    forall c | b < c < d && TakenIn(run[c], trace[c]) ensures trace[c].chunk.seqNo in pos && pos[trace[c].chunk.seqNo] == c {
      assert trace[..d][c] == trace[c];
    }
    AllWindows(u.buf, Bodies(trace, pos, u.chunkCount));
  }

  /** Safety of the whole protocol. A module reaches the simulator only as the bytes of one complete session: every
      chunk of it was taken exactly once since that session opened, joined by chunk number whatever the order of
      arrival; it hashes to the digest announced at UPLOAD_BEGIN, which DEPLOY repeats; it starts with the wasm magic;
      and DEPLOY named a slot of the dynamic range and this ABI version. */
  lemma DeployedModule(cfg: Config, trace: seq<Message>, run: seq<Node>, d: nat) returns (b: nat, pos: map<nat, nat>, handed: Deployment)
    requires IsRun(cfg, trace, run) && run[0].upload.None? && d < |trace| && trace[d].Deploy?
    requires run[d + 1].deployments != run[d].deployments
    ensures run[d + 1].deployments == run[d].deployments + [handed]
    ensures WholeSession(trace, run, b, pos, d)
    ensures handed.wasm == Flatten(Bodies(trace, pos, trace[b].begin.chunkCount))
    ensures |handed.wasm| == trace[b].begin.totalSize <= MAX_WASM_MODULE_SIZE
    ensures cfg.k12(handed.wasm) == trace[b].begin.finalHash == trace[d].deploy.finalHash
    ensures trace[b].begin.sessionId == trace[d].deploy.sessionId
    ensures WASM_MAGIC <= handed.wasm
    ensures trace[d].deploy.abiVersion == WASM_ABI_VERSION
    ensures cfg.slotBase <= handed.slot == trace[d].deploy.targetSlot < cfg.slotBase + cfg.slotCount
  {
    assert Step(cfg, trace, run, d);
    DeployHands(cfg, run[d], trace[d]);
    var u := run[d].upload.value;
    handed := run[d + 1].deployments[|run[d].deployments|];
    PrefixIsRun(cfg, trace, run, d);
    b, pos := SessionOrigin(cfg, trace[..d], run[..d + 1]);
    OriginInRun(trace[..d], run[..d + 1], run, u, b, pos);
    CompleteIsWhole(trace, run, u, b, pos, d);
  }

  lemma DeployHands(cfg: Config, s: Node, m: Message)
    requires NodeModel.Valid(s) && m.Deploy? && Apply(cfg, s, m).0.deployments != s.deployments
    ensures Refusal(cfg, s, m.deploy).None? && s.upload.Some?
    ensures var u := s.upload.value;
            && WellSized(u) && |u.received| == u.chunkCount
            && cfg.k12(u.buf) == u.finalHash == m.deploy.finalHash && u.sessionId == m.deploy.sessionId
            && WASM_MAGIC <= u.buf && m.deploy.abiVersion == WASM_ABI_VERSION
            && cfg.slotBase <= m.deploy.targetSlot < cfg.slotBase + cfg.slotCount
            && Apply(cfg, s, m).0.deployments ==
                 s.deployments + [Deployment(m.deploy.targetSlot, u.buf, Some(m.contract), NodeModel.Takes(s.staged, m.deploy.targetSlot))]
  {
  }

  // ---------- the slot is never wedged ----------

  /** The size and chunk count of a BEGIN are those of some module the node accepts. */
  predicate WellFormed(m: BeginFields) {
    1 <= m.totalSize <= MAX_WASM_MODULE_SIZE && m.chunkCount == ChunkCount(m.totalSize)
  }

  /** A BEGIN opens its session exactly when it is well formed and no session is live or the live one has been idle for
      more than 32 ticks. While a session lives nothing changes: a repeat of it is answered well, any other is refused. A
      malformed BEGIN is refused, and still drops a stale session. */
  lemma BeginOpensIff(s: Node, m: BeginFields)
    ensures OpensIn(s, Begin(m)) <==> WellFormed(m) && (s.upload.None? || IdleTicks(s) > UPLOAD_STALE_TICKS)
    ensures OpensIn(s, Begin(m)) ==>
              OnBegin(s, m).0 == s.(upload := Some(Upload(m.sessionId, m.totalSize, m.chunkCount, Zeros(m.totalSize), {}, m.finalHash, s.tick)))
    ensures s.upload.Some? && IdleTicks(s) <= UPLOAD_STALE_TICKS ==>
              OnBegin(s, m) == (s, if s.upload.value.sessionId == m.sessionId then Accepted else Refused)
    ensures !WellFormed(m) && (s.upload.None? || IdleTicks(s) > UPLOAD_STALE_TICKS) ==> OnBegin(s, m) == (s.(upload := None), Refused)
  {
  }

  /** Nothing but an opening or an accepted chunk touches a session and its idle clock: refused BEGINs and chunks, repeated
      ones, refused DEPLOYs, polls, ticks and staging leave it as it was, or end it. */
  lemma {:induction false} Untouched(cfg: Config, trace: seq<Message>, run: seq<Node>, i: nat, j: nat)
    requires IsRun(cfg, trace, run) && i <= j <= |trace|
    requires forall k :: i <= k < j ==> !OpensIn(run[k], trace[k]) && !TakenIn(run[k], trace[k])
    ensures run[j].upload.None? || run[j].upload == run[i].upload
    decreases j
  {
    if i < j {
      Untouched(cfg, trace, run, i, j - 1);
      assert Step(cfg, trace, run, j - 1);
      if run[j].upload.Some? {
        OtherwiseKept(cfg, run[j - 1], trace[j - 1]);
      }
    }
  }

  /** The slot cannot be held without progress: whatever arrives between, once no chunk was accepted for more than 32
      ticks, any well-formed BEGIN opens its session. */
  lemma NeverWedged(cfg: Config, trace: seq<Message>, run: seq<Node>, i: nat, j: nat, m: BeginFields)
    requires IsRun(cfg, trace, run) && i <= j <= |trace| && WellFormed(m)
    requires forall k :: i <= k < j ==> !OpensIn(run[k], trace[k]) && !TakenIn(run[k], trace[k])
    requires run[i].upload.Some? ==> run[j].tick > run[i].upload.value.lastProgressTick + UPLOAD_STALE_TICKS
    ensures OpensIn(run[j], Begin(m))
  {
    Untouched(cfg, trace, run, i, j);
    BeginOpensIff(run[j], m);
  }

  /** From message i to message j the clock does not run backwards and no session opens. */
  ghost predicate OneSession(trace: seq<Message>, run: seq<Node>, i: nat, j: nat)
    requires j <= |trace| && |run| == |trace| + 1
  {
    forall k :: i <= k < j ==> !OpensIn(run[k], trace[k]) && run[k].tick <= run[k + 1].tick
  }

  /** While one session holds the slot, its progress clock moves only with a new chunk. */
  lemma {:induction false} Progress(cfg: Config, trace: seq<Message>, run: seq<Node>, i: nat, j: nat)
    requires IsRun(cfg, trace, run) && i <= j <= |trace| && OneSession(trace, run, i, j) && run[j].upload.Some?
    ensures run[i].upload.Some? && run[j].tick >= run[i].tick
    ensures var (u, v) := (run[i].upload.value, run[j].upload.value);
      && WellSized(v) && u.chunkCount == v.chunkCount && |u.received| <= |v.received|
      && (u.lastProgressTick <= run[i].tick ==> v.lastProgressTick <= run[j].tick)
      && (u.lastProgressTick == v.lastProgressTick || |u.received| < |v.received|)
    decreases j
  {
    if i < j {
      assert Step(cfg, trace, run, j - 1);
      OtherwiseKept(cfg, run[j - 1], trace[j - 1]);
      Progress(cfg, trace, run, i, j - 1);
    } else {
      assert j == |trace| || Step(cfg, trace, run, j);
      assert j == 0 || Step(cfg, trace, run, j - 1);
    }
  }

  /** Each of these messages is a well-formed BEGIN that opens nothing, more than 32 ticks after the one before it. */
  ghost predicate FailedTries(trace: seq<Message>, run: seq<Node>, tries: seq<nat>)
    requires |run| == |trace| + 1
  {
    && (forall q :: 0 <= q < |tries| ==> tries[q] < |trace| && FailedTry(trace, run, tries[q]))
    && (forall q :: 0 < q < |tries| ==> tries[q - 1] < tries[q] && run[tries[q]].tick > run[tries[q - 1]].tick + UPLOAD_STALE_TICKS)
  }

  ghost predicate FailedTry(trace: seq<Message>, run: seq<Node>, k: nat)
    requires k < |trace| && |run| == |trace| + 1
  {
    trace[k].Begin? && WellFormed(trace[k].begin) && !OpensIn(run[k], trace[k])
  }

  /** Between two such tries the session has taken a chunk. */
  lemma {:induction false} TriesCostChunks(cfg: Config, trace: seq<Message>, run: seq<Node>, tries: seq<nat>)
    requires IsRun(cfg, trace, run) && tries != [] && FailedTries(trace, run, tries)
    requires OneSession(trace, run, tries[0], tries[|tries| - 1])
    requires run[tries[0]].upload.Some? ==> run[tries[0]].upload.value.lastProgressTick <= run[tries[0]].tick
    ensures var last := run[tries[|tries| - 1]];
      && run[tries[0]].upload.Some? && last.upload.Some? && last.upload.value.lastProgressTick <= last.tick
      && last.upload.value.chunkCount == run[tries[0]].upload.value.chunkCount
      && |last.upload.value.received| >= |tries| - 1
    decreases |tries|
  {
    var n := |tries| - 1;
    assert FailedTry(trace, run, tries[n]);
    BeginOpensIff(run[tries[n]], trace[tries[n]].begin);
    if n > 0 {
      var front := tries[..n];
      assert front[n - 1] == tries[n - 1] < tries[n];
      Ascending(tries, 0, n - 1);
      TriesCostChunks(cfg, trace, run, front);
      Progress(cfg, trace, run, tries[n - 1], tries[n]);
    }
  }

  /** Nor can one session hold the slot for ever by making progress slowly: a client that tries again every 33 ticks fails
      at most once more than the session has chunks. */
  lemma RetriesGetIn(cfg: Config, trace: seq<Message>, run: seq<Node>, tries: seq<nat>)
    requires IsRun(cfg, trace, run) && tries != [] && FailedTries(trace, run, tries)
    requires OneSession(trace, run, tries[0], tries[|tries| - 1])
    requires run[tries[0]].upload.Some? ==> run[tries[0]].upload.value.lastProgressTick <= run[tries[0]].tick
    ensures run[tries[0]].upload.Some? && |tries| <= run[tries[0]].upload.value.chunkCount + 1
  {
    TriesCostChunks(cfg, trace, run, tries);
    var last := tries[|tries| - 1];
    assert Step(cfg, trace, run, last);
    var u := run[last].upload.value;
    FullSet(u.received, u.chunkCount);
  }

  // ---------- what a DEPLOY finds ----------

  /** It names a slot of the range, and this ABI version. */
  predicate InSlotRange(cfg: Config, m: DeployFields) {
    cfg.slotBase <= m.targetSlot < cfg.slotBase + cfg.slotCount
  }

  predicate Addressed(cfg: Config, m: DeployFields) {
    InSlotRange(cfg, m) && m.abiVersion == WASM_ABI_VERSION
  }

  predicate ForLive(s: Node, m: DeployFields) {
    s.upload.Some? && s.upload.value.sessionId == m.sessionId
  }

  ghost predicate NothingMissing(u: Upload) {
    forall i :: 0 <= i < u.chunkCount ==> i in u.received
  }

  /** The bytes hash to the announced digest, which the message repeats. */
  predicate DigestsMatch(cfg: Config, u: Upload, m: DeployFields) {
    cfg.k12(u.buf) == u.finalHash == m.finalHash
  }

  /** Every check up to the digests passes: from here on the session is over. */
  ghost predicate Commits(cfg: Config, s: Node, m: DeployFields) {
    Addressed(cfg, m) && ForLive(s, m) && NothingMissing(s.upload.value) && DigestsMatch(cfg, s.upload.value, m)
  }

  lemma CommitsIff(cfg: Config, s: Node, m: DeployFields)
    requires NodeModel.Valid(s)
    ensures Commits(cfg, s, m) <==> Refusal(cfg, s, m) in {None, Some(NotWasm)}
    ensures Refusal(cfg, s, m).None? <==> Commits(cfg, s, m) && WASM_MAGIC <= s.upload.value.buf
    ensures s.upload.Some? ==> (NothingMissing(s.upload.value) <==> |s.upload.value.received| == s.upload.value.chunkCount)
  {
    if s.upload.Some? {
      var u := s.upload.value;
      FullSet(u.received, u.chunkCount);
      if NothingMissing(u) {
        AllOfThem(u.received, u.chunkCount);
      }
      assert |u.buf| >= 4 ==> (u.buf[..4] == WASM_MAGIC <==> WASM_MAGIC <= u.buf);
    }
  }

  /** A DEPLOY that gets past the digests frees the slot, whatever the simulator answers: the next well-formed BEGIN
      opens. One that fails before leaves the session as it was. */
  lemma DeployFreesSlot(cfg: Config, trace: seq<Message>, run: seq<Node>, d: nat, m: BeginFields)
    requires IsRun(cfg, trace, run) && d < |trace| && trace[d].Deploy? && WellFormed(m)
    ensures Commits(cfg, run[d], trace[d].deploy) ==> OpensIn(run[d + 1], Begin(m))
    ensures !Commits(cfg, run[d], trace[d].deploy) ==> run[d + 1].upload == run[d].upload
  {
    assert Step(cfg, trace, run, d);
    CommitsIff(cfg, run[d], trace[d].deploy);
    BeginOpensIff(run[d + 1], m);
  }

  /** A DEPLOY hands its module over exactly when it names a slot of the range, this ABI version and the live session, no
      chunk number of that session is missing, the bytes hash to the announced digest, which the message repeats, and they
      start with the wasm magic. */
  lemma HandedOverIff(cfg: Config, s: Node, m: DeployFields, name: string, sim: SimDeploy)
    requires NodeModel.Valid(s)
    ensures OnDeploy(cfg, s, m, name, sim).0.deployments != s.deployments <==>
              Commits(cfg, s, m) && WASM_MAGIC <= s.upload.value.buf
  {
    CommitsIff(cfg, s, m);
  }

  lemma {:induction false} AllOfThem(s: set<nat>, count: nat)
    requires (forall i :: i in s ==> i < count) && forall i :: 0 <= i < count ==> i in s
    ensures |s| == count
  {
    if count == 0 {
      assert s == {};
    } else {
      AllOfThem(s - {count - 1}, count - 1);
    }
  }

  // ---------- verdicts ----------

  /** Message `k` changed the recorded outcome to one of another session. */
  ghost predicate RecordsAnother(trace: seq<Message>, run: seq<Node>, k: nat, sessionId: nat)
    requires k < |trace| && |run| == |trace| + 1
  {
    trace[k].Deploy? && trace[k].deploy.sessionId != sessionId
    && run[k + 1].lastDeploy.Some? && run[k + 1].lastDeploy.value.sessionId == trace[k].deploy.sessionId
  }

  /** A verdict other than "incomplete" never changes until another session's outcome is recorded. */
  lemma {:induction false} VerdictStands(cfg: Config, trace: seq<Message>, run: seq<Node>, first: nat, last: nat)
    requires IsRun(cfg, trace, run) && first <= last <= |trace|
    requires run[first].lastDeploy.Some? && run[first].lastDeploy.value.code != Incomplete
    ensures run[last].lastDeploy == run[first].lastDeploy
            || (exists k: nat :: first <= k < last && RecordsAnother(trace, run, k, run[first].lastDeploy.value.sessionId))
    decreases last
  {
    if first < last {
      VerdictStands(cfg, trace, run, first, last - 1);
      assert Step(cfg, trace, run, last - 1);
      var verdict := run[first].lastDeploy.value;
      if run[last - 1].lastDeploy == run[first].lastDeploy {
        VerdictStep(cfg, run[last - 1], trace[last - 1], verdict);
        if run[last].lastDeploy != run[first].lastDeploy {
          assert RecordsAnother(trace, run, last - 1, verdict.sessionId);
        }
      }
    }
  }

  lemma VerdictStep(cfg: Config, s: Node, m: Message, verdict: Outcome)
    requires NodeModel.Valid(s) && s.lastDeploy == Some(verdict) && verdict.code != Incomplete
    ensures var after := Apply(cfg, s, m).0.lastDeploy;
            after == s.lastDeploy
            || (m.Deploy? && m.deploy.sessionId != verdict.sessionId && after.Some? && after.value.sessionId == m.deploy.sessionId)
  {
  }

  /** Message `d` is a DEPLOY, and the engine did not fault on it. */
  ghost predicate Answered(cfg: Config, trace: seq<Message>, run: seq<Node>, d: nat)
    requires d < |trace| && |run| == |trace| + 1
  {
    && trace[d].Deploy?
    && OnDeploy(cfg, run[d], trace[d].deploy, trace[d].contract, trace[d].sim).1 != Faulted
  }

  lemma AnswerStep(cfg: Config, trace: seq<Message>, run: seq<Node>, k: nat)
    requires k < |trace| && |run| == |trace| + 1 && Step(cfg, trace, run, k)
    ensures var last := run[k + 1].lastDeploy;
      if Answered(cfg, trace, run, k) then last.Some? && last.value.sessionId == trace[k].deploy.sessionId
      else last == run[k].lastDeploy
  {
  }

  /** Every DEPLOY is answered, unless the engine faults on it: from then on the recorded outcome is one of its session,
      until a later DEPLOY of another session is answered. */
  lemma {:induction false} AnswerStands(cfg: Config, trace: seq<Message>, run: seq<Node>, d: nat, j: nat)
    requires IsRun(cfg, trace, run) && d < j <= |trace| && Answered(cfg, trace, run, d)
    ensures run[j].lastDeploy.Some?
    ensures run[j].lastDeploy.value.sessionId == trace[d].deploy.sessionId
            || exists k: nat :: d < k < j && Answered(cfg, trace, run, k) && trace[k].deploy.sessionId != trace[d].deploy.sessionId
    decreases j
  {
    hide Step;
    hide OnDeploy;
    AnswerStep(cfg, trace, run, j - 1);
    if d < j - 1 {
      AnswerStands(cfg, trace, run, d, j - 1);
    }
  }
}
