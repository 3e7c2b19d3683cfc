/** How long an upload session lives (packages/engine/src/transport.ts): its idle clock starts over with its opening and
    with every accepted chunk, and with nothing else, so a client that keeps sending keeps its session. */
module SessionClock {
  import opened Wrappers
  import opened DeployWire
  import opened NodeModel
  import opened NodeRuns

  /** The message opens a session, or is a chunk the live one takes. */
  predicate ProgressIn(s: Node, m: Message) {
    OpensIn(s, m) || TakenIn(s, m)
  }

  /** Message q made progress, and none from then to j did. */
  ghost predicate LastProgress(trace: seq<Message>, run: seq<Node>, q: nat, j: nat)
    requires j <= |trace| && |run| == |trace| + 1
  {
    q < j && ProgressIn(run[q], trace[q]) && forall p :: q < p < j ==> !ProgressIn(run[p], trace[p])
  }

  /** A live session's clock shows the tick of its opening or of its last accepted chunk, whichever came later. */
  lemma ClockShows(cfg: Config, trace: seq<Message>, run: seq<Node>, q: nat, j: nat)
    requires IsRun(cfg, trace, run) && j <= |trace| && LastProgress(trace, run, q, j) && run[j].upload.Some?
    ensures run[j].upload.value.lastProgressTick == run[q].tick
  {
    assert Step(cfg, trace, run, q);
    Untouched(cfg, trace, run, q + 1, j);
  }

  lemma {:induction false} HasProgressed(cfg: Config, trace: seq<Message>, run: seq<Node>, j: nat) returns (q: nat)
    requires IsRun(cfg, trace, run) && run[0].upload.None? && j <= |trace| && run[j].upload.Some?
    ensures LastProgress(trace, run, q, j)
    decreases j
  {
    assert Step(cfg, trace, run, j - 1);
    if ProgressIn(run[j - 1], trace[j - 1]) {
      q := j - 1;
    } else {
      OtherwiseKept(cfg, run[j - 1], trace[j - 1]);
      q := HasProgressed(cfg, trace, run, j - 1);
    }
  }

  /** A BEGIN or a poll ends the live session exactly when its last progress is more than 32 ticks ago. */
  lemma LooksIff(cfg: Config, trace: seq<Message>, run: seq<Node>, q: nat, j: nat)
    requires IsRun(cfg, trace, run) && j < |trace| && LastProgress(trace, run, q, j) && run[j].upload.Some?
    requires trace[j].Begin? || trace[j].Poll?
    ensures run[j].tick <= run[q].tick + UPLOAD_STALE_TICKS ==> run[j + 1].upload == run[j].upload
    ensures run[j].tick > run[q].tick + UPLOAD_STALE_TICKS ==> run[j + 1].upload.None? || OpensIn(run[j], trace[j])
  {
    assert Step(cfg, trace, run, j);
    ClockShows(cfg, trace, run, q, j);
  }

  /** At message k the last progress is at most 32 ticks old. */
  ghost predicate Recent(trace: seq<Message>, run: seq<Node>, k: nat)
    requires k < |trace| && |run| == |trace| + 1
  {
    exists q: nat :: LastProgress(trace, run, q, k) && run[k].tick <= run[q].tick + UPLOAD_STALE_TICKS
  }

  /** Message k leaves a session that makes progress alive: every BEGIN and poll comes within 32 ticks of the last
      progress, and a DEPLOY does not get past the digests. */
  ghost predicate Spares(cfg: Config, trace: seq<Message>, run: seq<Node>, k: nat)
    requires k < |trace| && |run| == |trace| + 1
  {
    && (trace[k].Begin? || trace[k].Poll? ==> Recent(trace, run, k))
    && (trace[k].Deploy? ==> !Commits(cfg, run[k], trace[k].deploy))
  }

  /** The same session with at least the chunks it had, and, since, exactly those whose messages were taken. */
  ghost predicate Grown(trace: seq<Message>, run: seq<Node>, i: nat, j: nat)
    requires i <= j <= |trace| && |run| == |trace| + 1
  {
    && run[i].upload.Some? && run[j].upload.Some?
    && var (u, v) := (run[i].upload.value, run[j].upload.value);
    && v.sessionId == u.sessionId && v.totalSize == u.totalSize && v.chunkCount == u.chunkCount && v.finalHash == u.finalHash
    && forall n: nat :: n in v.received <==> n in u.received || Took(trace, run, i, j, n)
  }

  /** A message from i on and before j was taken as chunk number n. */
  ghost predicate Took(trace: seq<Message>, run: seq<Node>, i: nat, j: nat, n: nat)
    requires j <= |trace| && |run| == |trace| + 1
  {
    exists k :: i <= k < j && TakenIn(run[k], trace[k]) && trace[k].chunk.seqNo == n
  }

  lemma Spared(cfg: Config, trace: seq<Message>, run: seq<Node>, k: nat)
    requires IsRun(cfg, trace, run) && k < |trace| && run[k].upload.Some? && Spares(cfg, trace, run, k)
    ensures !OpensIn(run[k], trace[k]) && run[k + 1].upload.Some?
    ensures var (u, v) := (run[k].upload.value, run[k + 1].upload.value);
      if TakenIn(run[k], trace[k])
      then v == u.(buf := v.buf, received := u.received + {trace[k].chunk.seqNo}, lastProgressTick := run[k].tick)
      else v == u
  {
    assert Step(cfg, trace, run, k);
    if trace[k].Begin? || trace[k].Poll? {
      var q: nat :| LastProgress(trace, run, q, k) && run[k].tick <= run[q].tick + UPLOAD_STALE_TICKS;
      ClockShows(cfg, trace, run, q, k);
    } else if trace[k].Deploy? {
      CommitsIff(cfg, run[k], trace[k].deploy);
    }
  }

  /** A session that keeps making progress survives whatever else arrives, opens to no one else, and collects exactly the
      chunks taken. */
  lemma {:induction false} Survives(cfg: Config, trace: seq<Message>, run: seq<Node>, i: nat, j: nat)
    requires IsRun(cfg, trace, run) && i <= j <= |trace| && run[i].upload.Some?
    requires forall k :: i <= k < j ==> Spares(cfg, trace, run, k)
    ensures Grown(trace, run, i, j)
    ensures forall k :: i <= k < j ==> !OpensIn(run[k], trace[k])
    decreases j
  {
    if i < j {
      Survives(cfg, trace, run, i, j - 1);
      Spared(cfg, trace, run, j - 1);
      TookNext(trace, run, i, j);
      assert Grown(trace, run, i, j);
    }
  }

  lemma TookNext(trace: seq<Message>, run: seq<Node>, i: nat, j: nat)
    requires i < j <= |trace| && |run| == |trace| + 1
    ensures forall n: nat :: Took(trace, run, i, j, n) <==>
      Took(trace, run, i, j - 1, n) || (TakenIn(run[j - 1], trace[j - 1]) && trace[j - 1].chunk.seqNo == n)
  {
  }
}
