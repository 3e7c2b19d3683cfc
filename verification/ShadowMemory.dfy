/** The gtest host keeps each contract's state twice, in the engine and in runner memory (packages/engine/src/gtest.ts).
    Here the two copies are values; what the host calls do to them is proved to be what one shared memory would do. */
module ShadowMemory {
  import opened Wrappers
  import opened DeployWire

  type States = map<nat, Bytes>

  /** Where a contract's copy lies in runner memory. */
  datatype Shadow = Shadow(dst: nat, len: nat)

  datatype Host = Host(mem: Bytes, engine: States, shadows: map<nat, Shadow>, pending: set<nat>)

  /** How much of the shadow is contract state: a view of the state is clamped to its size. */
  function Width(h: Host, s: nat): (w: nat)
    requires s in h.shadows && s in h.engine
    ensures w <= h.shadows[s].len && w <= |h.engine[s]|
  {
    Least(h.shadows[s].len, |h.engine[s]|)
  }

  function Window(h: Host, s: nat): Bytes
    requires s in h.shadows && s in h.engine && h.shadows[s].dst + h.shadows[s].len <= |h.mem|
  {
    h.mem[h.shadows[s].dst..h.shadows[s].dst + Width(h, s)]
  }

  predicate Apart(a: nat, aLen: nat, b: nat, bLen: nat) {
    a + aLen <= b || b + bLen <= a
  }

  /** Shadows belong to deployed contracts and lie in memory without overlapping, as separate allocations do. */
  ghost predicate Placed(h: Host) {
    && h.pending <= h.shadows.Keys <= h.engine.Keys
    && (forall s :: s in h.shadows ==> h.shadows[s].dst + h.shadows[s].len <= |h.mem|)
    && forall s, t :: s in h.shadows && t in h.shadows && s != t ==>
         Apart(h.shadows[s].dst, h.shadows[s].len, h.shadows[t].dst, h.shadows[t].len)
  }

  lemma PutApart(mem: Bytes, at: nat, bytes: Bytes, lo: nat, width: nat)
    requires at + |bytes| <= |mem| && lo + width <= |mem| && Apart(at, |bytes|, lo, width)
    ensures Put(mem, at, bytes)[lo..lo + width] == mem[lo..lo + width]
  {
  }

  lemma PutInPlace(mem: Bytes, at: nat, bytes: Bytes)
    requires at + |bytes| <= |mem|
    ensures Put(mem, at, bytes)[at..at + |bytes|] == bytes
  {
  }

  lemma PutThrough(mem: Bytes, addr: nat, bytes: Bytes, dst: nat, width: nat)
    requires addr + |bytes| <= |mem| && dst + width <= |mem|
    ensures Put(mem, addr, bytes)[dst..dst + width] == Through(mem[dst..dst + width], dst, width, addr, bytes)
  {
  }

  lemma ThroughTail(head: Bytes, tail: Bytes, dst: nat, addr: nat, bytes: Bytes)
    ensures Through(head + tail, dst, |head|, addr, bytes) == Through(head, dst, |head|, addr, bytes) + tail
  {
  }

  /** The state of one contract as the test sees it: the shadow where it is pending, the engine elsewhere. */
  ghost function SharedState(h: Host, s: nat): (r: Bytes)
    requires Placed(h) && s in h.engine
    ensures |r| == |h.engine[s]|
  {
    if s in h.pending then Window(h, s) + h.engine[s][Width(h, s)..] else h.engine[s]
  }

  /** The single memory the two copies stand for. */
  ghost function Shared(h: Host): States
    requires Placed(h)
  {
    map s | s in h.engine :: SharedState(h, s)
  }

  /** A shadow that is not pending holds what the engine holds. */
  ghost predicate Coherent(h: Host) {
    Placed(h) && forall s :: s in h.shadows && s !in h.pending ==> Window(h, s) == h.engine[s][..Width(h, s)]
  }

  // ---------- what the host calls do ----------

  /** Before contract code runs, every pending shadow is written to the engine. */
  ghost function Push(h: Host): Host
    requires Placed(h)
  {
    h.(engine := map s | s in h.engine :: SharedState(h, s), pending := {})
  }

  /** After contract code ran, every shadow is refreshed from the engine and is pending again. */
  ghost predicate Pulled(h: Host, h': Host) {
    && h'.engine == h.engine && h'.shadows == h.shadows && h'.pending == h.pending + h.shadows.Keys
    && |h'.mem| == |h.mem| && Placed(h) && Placed(h')
    && (forall s :: s in h.shadows ==> Window(h', s) == h.engine[s][..Width(h, s)])
    && forall i :: 0 <= i < |h.mem| && !Covered(h, i) ==> h'.mem[i] == h.mem[i]
  }

  ghost predicate Covered(h: Host, i: int) {
    exists s :: s in h.shadows && s in h.engine && h.shadows[s].dst <= i < h.shadows[s].dst + Width(h, s)
  }

  /** Contract code as a function of all the states it may read and write; its answer goes to the caller's buffer. */
  datatype Op =
    | Reset(sizes: map<nat, nat>)
    | Init(slot: nat)
    | StateIn(slot: nat, dst: nat, len: nat)
    | Write(addr: nat, bytes: Bytes)
    | Query(ask: States -> Bytes, outPtr: nat, outCap: nat)
    | Dispatch(code: States -> (States, Bytes), outPtr: nat, outCap: nat)

  /** Contract code neither deploys nor resizes contracts. */
  ghost predicate SameShape(a: States, b: States) {
    a.Keys == b.Keys && forall s :: s in a ==> |a[s]| == |b[s]|
  }

  /** Answers are cut to the caller's capacity. */
  function Cut(out: Bytes, cap: nat): Bytes {
    out[..Least(|out|, cap)]
  }

  ghost predicate Next(h: Host, op: Op, h': Host)
    requires Placed(h)
  {
    match op
    case Reset(sizes) =>
      h' == h.(engine := map s | s in sizes :: Zeros(sizes[s]), shadows := map[], pending := {})
    case Init(slot) =>
      if slot !in h.engine then h' == h
      else if slot !in h.shadows then h' == h.(engine := h.engine[slot := Zeros(|h.engine[slot]|)])
      else h' == h.(engine := h.engine[slot := Zeros(|h.engine[slot]|)],
                    mem := Put(h.mem, h.shadows[slot].dst, Zeros(Width(h, slot))))
    case StateIn(slot, dst, len) =>
      if slot !in h.engine then h' == h
      else
        && dst + len <= |h.mem|
        && h' == h.(shadows := h.shadows[slot := Shadow(dst, len)], pending := h.pending + {slot},
                    mem := if slot in h.shadows && h.shadows[slot].dst == dst then h.mem
                           else Put(h.mem, dst, h.engine[slot][..Least(len, |h.engine[slot]|)]))
    case Write(addr, bytes) =>
      addr + |bytes| <= |h.mem| && h' == h.(mem := Put(h.mem, addr, bytes))
    case Query(ask, outPtr, outCap) =>
      var out := Cut(ask(Push(h).engine), outCap);
      outPtr + |out| <= |h.mem| && h' == Push(h).(mem := Put(h.mem, outPtr, out))
    case Dispatch(code, outPtr, outCap) =>
      var (after, answer) := code(Push(h).engine);
      var out := Cut(answer, outCap);
      && SameShape(h.engine, after)
      && outPtr + |out| <= |h.mem|
      && Pulled(Push(h).(engine := after, mem := Put(h.mem, outPtr, out)), h')
  }

  // ---------- the shared memory it refines ----------

  /** Bytes written to runner memory at `addr`, seen through a state that lies at `dst`. */
  function Through(state: Bytes, dst: nat, width: nat, addr: nat, bytes: Bytes): (r: Bytes)
    requires width <= |state|
    ensures |r| == |state|
  {
    seq(|state|, i requires 0 <= i < |state| =>
      if i < width && addr <= dst + i < addr + |bytes| then bytes[dst + i - addr] else state[i])
  }

  /** One memory, no copies: contract code reads and writes it, and so does the test through the addresses it was given. */
  ghost function Ideal(m: States, h: Host, op: Op): States {
    match op
    case Reset(sizes) => map s | s in sizes :: Zeros(sizes[s])
    case Init(slot) => if slot in m then m[slot := Zeros(|m[slot]|)] else m
    case StateIn(_, _, _) => m
    case Write(addr, bytes) =>
      map s | s in m :: if s in h.shadows then Through(m[s], h.shadows[s].dst, Least(h.shadows[s].len, |m[s]|), addr, bytes) else m[s]
    case Query(_, _, _) => m
    case Dispatch(code, _, _) => code(m).0
  }

  /** The discipline of a test, all of it met by the runner's own accessor, which gives each slot one buffer of one
      size and asks for the state anew each time: a write that meets a shadow finds it pending; a query's answer lands
      outside every shadow; a state is asked for in its own place and keeps that place and size. */
  ghost predicate Tracked(h: Host, op: Op)
    requires Placed(h)
  {
    match op
    case Reset(_) => true
    case Init(_) => true
    case StateIn(slot, dst, len) =>
      slot in h.engine ==>
        && (forall t :: t in h.shadows && t != slot ==> Apart(dst, len, h.shadows[t].dst, h.shadows[t].len))
        && (slot in h.shadows ==>
              if h.shadows[slot].dst == dst then Least(len, |h.engine[slot]|) == Width(h, slot)
              else slot !in h.pending || Window(h, slot) == h.engine[slot][..Width(h, slot)])
    case Write(addr, bytes) =>
      forall s :: s in h.shadows && s !in h.pending ==> Apart(addr, |bytes|, h.shadows[s].dst, h.shadows[s].len)
    case Query(ask, outPtr, outCap) =>
      forall s :: s in h.shadows ==> Apart(outPtr, |Cut(ask(Push(h).engine), outCap)|, h.shadows[s].dst, h.shadows[s].len)
    case Dispatch(_, _, _) => true
  }

  /** Pushing puts the single memory into the engine: every tracked write is there before contract code runs. */
  lemma PushSeesShared(h: Host)
    requires Coherent(h)
    ensures Push(h).engine == Shared(h) && Placed(Push(h)) && Coherent(Push(h)) && Shared(Push(h)) == Shared(h)
  {
    var p := Push(h);
    forall s | s in p.shadows ensures Window(p, s) == p.engine[s][..Width(p, s)] {
      assert Width(p, s) == Width(h, s);
    }
  }

  /** After a dispatch every shadow holds what the engine holds, and whatever contract code left is the shared memory. */
  lemma PullSeesEngine(h: Host, h': Host)
    requires Pulled(h, h')
    ensures Coherent(h') && Shared(h') == h'.engine == h.engine
    ensures forall s :: s in h'.shadows ==> s in h'.pending && Window(h', s) == h'.engine[s][..Width(h', s)]
  {
    forall s | s in h'.engine ensures SharedState(h', s) == h'.engine[s] {
      if s in h'.pending {
        assert s in h'.shadows && Width(h', s) == Width(h, s);
      }
    }
  }

  lemma PlacedStep(h: Host, op: Op, h': Host)
    requires Placed(h) && Next(h, op, h') && Tracked(h, op)
    ensures Placed(h')
  {
  }

  /** One host call keeps coherence and does to the shared memory what the ideal memory would do. */
  lemma StepRefines(h: Host, op: Op, h': Host)
    requires Coherent(h) && Next(h, op, h') && Tracked(h, op)
    ensures Coherent(h')
    ensures Shared(h') == Ideal(Shared(h), h, op)
  {
    PlacedStep(h, op, h');
    match op
    case Reset(_) =>
    case Init(slot) => InitRefines(h, slot, h');
    case StateIn(slot, dst, len) => StateInRefines(h, slot, dst, len, h');
    case Write(addr, bytes) => WriteRefines(h, addr, bytes, h');
    case Query(ask, outPtr, outCap) =>
      PushSeesShared(h);
      WriteElsewhere(Push(h), outPtr, Cut(ask(Push(h).engine), outCap), h');
    case Dispatch(code, outPtr, outCap) =>
      PushSeesShared(h);
      var (after, answer) := code(Push(h).engine);
      PullSeesEngine(Push(h).(engine := after, mem := Put(h.mem, outPtr, Cut(answer, outCap))), h');
  }

  /** What coherence and the shared memory need of a new host: each slot's state, one at a time. */
  lemma SlotBySlot(h: Host, m: States)
    requires Placed(h) && m.Keys == h.engine.Keys
    requires forall s :: s in h.shadows && s !in h.pending ==> Window(h, s) == h.engine[s][..Width(h, s)]
    requires forall s :: s in h.engine ==> SharedState(h, s) == m[s]
    ensures Coherent(h) && Shared(h) == m
  {
  }

  lemma InitRefines(h: Host, slot: nat, h': Host)
    requires Coherent(h) && Next(h, Init(slot), h') && Placed(h')
    ensures Coherent(h') && Shared(h') == Ideal(Shared(h), h, Init(slot))
  {
    if slot in h.engine {
      forall s | s in h.engine && s != slot
        ensures SharedState(h', s) == SharedState(h, s)
        ensures s in h.shadows ==> Window(h', s) == Window(h, s)
      {
        ZeroMissesOther(h, slot, h', s);
      }
      ZeroIsState(h, slot, h');
      SlotBySlot(h', Shared(h)[slot := Zeros(|h.engine[slot]|)]);
    }
  }

  lemma ZeroMissesOther(h: Host, slot: nat, h': Host, s: nat)
    requires Placed(h) && Placed(h') && slot in h.engine && Next(h, Init(slot), h')
    requires s in h.engine && s != slot
    ensures SharedState(h', s) == SharedState(h, s)
    ensures s in h.shadows ==> Width(h', s) == Width(h, s) && Window(h', s) == Window(h, s)
  {
    if s in h.shadows && slot in h.shadows {
      PutApart(h.mem, h.shadows[slot].dst, Zeros(Width(h, slot)), h.shadows[s].dst, Width(h, s));
    }
  }

  lemma ZeroIsState(h: Host, slot: nat, h': Host)
    requires Placed(h) && Placed(h') && slot in h.engine && Next(h, Init(slot), h')
    ensures SharedState(h', slot) == h'.engine[slot] == Zeros(|h.engine[slot]|)
    ensures slot in h.shadows ==> Window(h', slot) == h'.engine[slot][..Width(h', slot)]
  {
    if slot in h.shadows {
      PutInPlace(h.mem, h.shadows[slot].dst, Zeros(Width(h, slot)));
      assert Width(h', slot) == Width(h, slot);
      assert Window(h', slot) == h'.engine[slot][..Width(h', slot)];
    }
  }

  lemma StateInRefines(h: Host, slot: nat, dst: nat, len: nat, h': Host)
    requires Coherent(h) && Next(h, StateIn(slot, dst, len), h') && Tracked(h, StateIn(slot, dst, len)) && Placed(h')
    ensures Coherent(h') && Shared(h') == Shared(h)
  {
    if slot in h.engine {
      if slot in h.shadows && h.shadows[slot].dst == dst {
        AskedAgain(h, slot, len, h');
      } else {
        CopiedIn(h, slot, dst, len, h');
      }
    }
  }

  lemma AskedAgain(h: Host, slot: nat, len: nat, h': Host)
    requires Coherent(h) && Placed(h') && slot in h.shadows && Least(len, |h.engine[slot]|) == Width(h, slot)
    requires h' == h.(shadows := h.shadows[slot := Shadow(h.shadows[slot].dst, len)], pending := h.pending + {slot})
    ensures Coherent(h') && Shared(h') == Shared(h)
  {
    forall s | s in h.shadows ensures Width(h', s) == Width(h, s) && Window(h', s) == Window(h, s) {
    }
    OldStateIsEngine(h, slot);
    SlotBySlot(h', Shared(h));
  }

  lemma CopiedIn(h: Host, slot: nat, dst: nat, len: nat, h': Host)
    requires Coherent(h) && Placed(h') && slot in h.engine && Tracked(h, StateIn(slot, dst, len))
    requires !(slot in h.shadows && h.shadows[slot].dst == dst)
    requires Next(h, StateIn(slot, dst, len), h')
    ensures Coherent(h') && Shared(h') == Shared(h)
  {
    forall s | s in h.engine && s != slot
      ensures SharedState(h', s) == SharedState(h, s)
      ensures s in h.shadows ==> Window(h', s) == Window(h, s)
    {
      CopyMissesOther(h, slot, dst, len, h', s);
    }
    CopyIsState(h, slot, dst, len, h');
    SlotBySlot(h', Shared(h));
  }

  lemma CopyMissesOther(h: Host, slot: nat, dst: nat, len: nat, h': Host, s: nat)
    requires Placed(h) && Placed(h') && slot in h.engine && Tracked(h, StateIn(slot, dst, len))
    requires !(slot in h.shadows && h.shadows[slot].dst == dst) && Next(h, StateIn(slot, dst, len), h')
    requires s in h.engine && s != slot
    ensures SharedState(h', s) == SharedState(h, s)
    ensures s in h.shadows ==> Width(h', s) == Width(h, s) && Window(h', s) == Window(h, s)
  {
    if s in h.shadows {
      PutApart(h.mem, dst, h.engine[slot][..Least(len, |h.engine[slot]|)], h.shadows[s].dst, Width(h, s));
    }
  }

  lemma CopyIsState(h: Host, slot: nat, dst: nat, len: nat, h': Host)
    requires Coherent(h) && Placed(h') && slot in h.engine && Tracked(h, StateIn(slot, dst, len))
    requires !(slot in h.shadows && h.shadows[slot].dst == dst) && Next(h, StateIn(slot, dst, len), h')
    ensures SharedState(h', slot) == SharedState(h, slot)
  {
    var copied := h.engine[slot][..Least(len, |h.engine[slot]|)];
    PutInPlace(h.mem, dst, copied);
    assert Window(h', slot) == copied;
    assert copied + h.engine[slot][|copied|..] == h.engine[slot];
    OldStateIsEngine(h, slot);
  }

  lemma OldStateIsEngine(h: Host, s: nat)
    requires Coherent(h) && s in h.engine
    ensures s in h.shadows && Window(h, s) == h.engine[s][..Width(h, s)] ==> SharedState(h, s) == h.engine[s]
    ensures s !in h.shadows ==> SharedState(h, s) == h.engine[s]
    ensures s in h.shadows && s !in h.pending ==> Window(h, s) + h.engine[s][Width(h, s)..] == h.engine[s]
  {
  }

  lemma WriteRefines(h: Host, addr: nat, bytes: Bytes, h': Host)
    requires Coherent(h) && Next(h, Write(addr, bytes), h') && Tracked(h, Write(addr, bytes)) && Placed(h')
    ensures Coherent(h') && Shared(h') == Ideal(Shared(h), h, Write(addr, bytes))
  {
    hide SharedState;
    hide Window;
    hide Through;
    var m := Ideal(Shared(h), h, Write(addr, bytes));
    forall s | s in h.shadows && s !in h.pending ensures Window(h', s) == h'.engine[s][..Width(h', s)] {
      KeptWindow(h, addr, bytes, h', s);
    }
    forall s | s in h.engine ensures SharedState(h', s) == m[s] {
      WrittenSlot(h, addr, bytes, h', s);
    }
    SlotBySlot(h', m);
  }

  lemma KeptWindow(h: Host, addr: nat, bytes: Bytes, h': Host, s: nat)
    requires Coherent(h) && Next(h, Write(addr, bytes), h') && Tracked(h, Write(addr, bytes)) && Placed(h')
    requires s in h.shadows && s !in h.pending
    ensures Window(h', s) == h'.engine[s][..Width(h', s)]
  {
    PutApart(h.mem, addr, bytes, h.shadows[s].dst, Width(h, s));
  }

  lemma WrittenSlot(h: Host, addr: nat, bytes: Bytes, h': Host, s: nat)
    requires Coherent(h) && Next(h, Write(addr, bytes), h') && Tracked(h, Write(addr, bytes)) && Placed(h') && s in h.engine
    ensures SharedState(h', s) == Ideal(Shared(h), h, Write(addr, bytes))[s]
  {
    if s in h.shadows {
      WrittenState(h, addr, bytes, h', s);
    }
  }

  lemma WrittenState(h: Host, addr: nat, bytes: Bytes, h': Host, s: nat)
    requires Coherent(h) && Placed(h') && addr + |bytes| <= |h.mem| && h' == h.(mem := Put(h.mem, addr, bytes))
    requires s in h.shadows && (s in h.pending || Apart(addr, |bytes|, h.shadows[s].dst, h.shadows[s].len))
    ensures SharedState(h', s) == Through(SharedState(h, s), h.shadows[s].dst, Width(h, s), addr, bytes)
  {
    if s in h.pending {
      PutThrough(h.mem, addr, bytes, h.shadows[s].dst, Width(h, s));
      ThroughTail(Window(h, s), h.engine[s][Width(h, s)..], h.shadows[s].dst, addr, bytes);
    } else {
      assert Through(h.engine[s], h.shadows[s].dst, Width(h, s), addr, bytes) == h.engine[s];
    }
  }

  /** A write outside every shadow is no write to any state. */
  lemma WriteElsewhere(h: Host, addr: nat, bytes: Bytes, h': Host)
    requires Coherent(h) && addr + |bytes| <= |h.mem| && h' == h.(mem := Put(h.mem, addr, bytes))
    requires forall s :: s in h.shadows ==> Apart(addr, |bytes|, h.shadows[s].dst, h.shadows[s].len)
    ensures Coherent(h') && Shared(h') == Shared(h)
  {
    forall s | s in h.shadows ensures Window(h', s) == Window(h, s) {
      PutApart(h.mem, addr, bytes, h.shadows[s].dst, Width(h, s));
    }
    SlotBySlot(h', Shared(h));
  }

  // ---------- runs ----------

  ghost predicate IsRun(ops: seq<Op>, run: seq<Host>) {
    && |run| == |ops| + 1 && Coherent(run[0])
    && forall k :: 0 <= k < |ops| ==> Step(ops, run, k)
  }

  ghost predicate Step(ops: seq<Op>, run: seq<Host>, k: nat)
    requires k < |ops| && |run| == |ops| + 1
  {
    Placed(run[k]) && Next(run[k], ops[k], run[k + 1]) && Tracked(run[k], ops[k])
  }

  /** The ideal memory after the first `k` calls; the runner's address table is all it takes from the host. */
  ghost function IdealAfter(ops: seq<Op>, run: seq<Host>, k: nat): States
    requires IsRun(ops, run) && k <= |ops|
  {
    if k == 0 then Shared(run[0]) else Ideal(IdealAfter(ops, run, k - 1), run[k - 1], ops[k - 1])
  }

  /** The first bytes of an answer stand in the caller's buffer, as many as fit, except where `hidden` says that something
      else was written after them; no other byte of runner memory changed, except there. */
  ghost predicate Answered(before: Bytes, after: Bytes, outPtr: nat, outCap: nat, answer: Bytes, hidden: set<int>) {
    var n := if |answer| < outCap then |answer| else outCap;
    && |after| == |before| && outPtr + n <= |after|
    && (forall i :: 0 <= i < n && outPtr + i !in hidden ==> after[outPtr + i] == answer[i])
    && forall i :: 0 <= i < |after| && !(outPtr <= i < outPtr + n) && i !in hidden ==> after[i] == before[i]
  }

  /** The bytes of runner memory that are contract state in some shadow. */
  ghost function Shadowed(h: Host): set<int>
    requires Placed(h)
  {
    set i: int | 0 <= i < |h.mem| && Covered(h, i)
  }

  /** Over every run the pair of copies is one shared memory: it is always coherent, its content is the ideal memory's,
      and contract code is always run on exactly that content. So it answers as it would there: after a query the caller
      finds in its buffer the answer on the ideal memory, and nothing else moved; after a dispatch too, save where the
      refreshed shadows lie, which show the ideal memory that the contract code left. */
  lemma {:induction false} HostRefinesSharedMemory(ops: seq<Op>, run: seq<Host>, k: nat)
    requires IsRun(ops, run) && k <= |ops|
    ensures Coherent(run[k]) && Shared(run[k]) == IdealAfter(ops, run, k)
    ensures Push(run[k]).engine == IdealAfter(ops, run, k)
    ensures forall s :: s in run[k].shadows ==> Window(run[k], s) == IdealAfter(ops, run, k)[s][..Width(run[k], s)]
    ensures k < |ops| && ops[k].Query? ==>
      Answered(run[k].mem, run[k + 1].mem, ops[k].outPtr, ops[k].outCap, ops[k].ask(IdealAfter(ops, run, k)), {})
    ensures k < |ops| && ops[k].Dispatch? ==>
      Answered(run[k].mem, run[k + 1].mem, ops[k].outPtr, ops[k].outCap, ops[k].code(IdealAfter(ops, run, k)).1, Shadowed(run[k]))
  {
    hide Next;
    hide Tracked;
    hide Answered;
    hide Window;
    hide SharedState;
    StaysShared(ops, run, k);
    PushSeesShared(run[k]);
    ReadsShared(run[k]);
    if k < |ops| {
      assert Step(ops, run, k);
      AnswerLands(run[k], ops[k], run[k + 1]);
    }
  }

  lemma {:induction false} StaysShared(ops: seq<Op>, run: seq<Host>, k: nat)
    requires IsRun(ops, run) && k <= |ops|
    ensures Coherent(run[k]) && Shared(run[k]) == IdealAfter(ops, run, k)
  {
    if k != 0 {
      StaysShared(ops, run, k - 1);
      assert Step(ops, run, k - 1);
      StepRefines(run[k - 1], ops[k - 1], run[k]);
    }
  }

  lemma AnswerLands(h: Host, op: Op, h': Host)
    requires Coherent(h) && Next(h, op, h')
    ensures op.Query? ==> Answered(h.mem, h'.mem, op.outPtr, op.outCap, op.ask(Shared(h)), {})
    ensures op.Dispatch? ==> Answered(h.mem, h'.mem, op.outPtr, op.outCap, op.code(Shared(h)).1, Shadowed(h))
  {
    PushSeesShared(h);
    hide SharedState;
    match op
    case Query(ask, outPtr, outCap) =>
      WrittenOut(h.mem, outPtr, outCap, ask(Shared(h)), h'.mem, {});
    case Dispatch(code, outPtr, outCap) =>
      var (after, answer) := code(Push(h).engine);
      var mid := Push(h).(engine := after, mem := Put(h.mem, outPtr, Cut(answer, outCap)));
      SameCover(h, mid);
      WrittenOut(h.mem, outPtr, outCap, answer, h'.mem, Shadowed(h));
    case _ =>
  }

  lemma WrittenOut(before: Bytes, outPtr: nat, outCap: nat, answer: Bytes, after: Bytes, hidden: set<int>)
    requires outPtr + |Cut(answer, outCap)| <= |before| == |after|
    requires forall i :: 0 <= i < |after| && i !in hidden ==> after[i] == Put(before, outPtr, Cut(answer, outCap))[i]
    ensures Answered(before, after, outPtr, outCap, answer, hidden)
  {
  }

  /** Contract code moves no shadow. */
  lemma SameCover(h: Host, mid: Host)
    requires Placed(h) && mid.shadows == h.shadows && SameShape(h.engine, mid.engine)
    ensures forall i :: Covered(mid, i) <==> Covered(h, i)
  {
    forall i | Covered(h, i) ensures Covered(mid, i) {
      var s :| s in h.shadows && s in h.engine && h.shadows[s].dst <= i < h.shadows[s].dst + Width(h, s);
      assert Width(mid, s) == Width(h, s);
    }
    forall i | Covered(mid, i) ensures Covered(h, i) {
      var s :| s in mid.shadows && s in mid.engine && mid.shadows[s].dst <= i < mid.shadows[s].dst + Width(mid, s);
      assert Width(mid, s) == Width(h, s);
    }
  }

  /** Reading a shadow is reading the shared memory. */
  lemma ReadsShared(h: Host)
    requires Coherent(h)
    ensures forall s :: s in h.shadows ==> Window(h, s) == Shared(h)[s][..Width(h, s)]
  {
  }

  // ---------- which shadows are pending ----------

  /** The call gives the slot a shadow. */
  predicate Asks(h: Host, op: Op, s: nat) {
    op.StateIn? && op.slot == s && s in h.engine
  }

  /** Call i was the last before k to ask for the slot's state, and nothing was reset since. */
  ghost predicate LastAsked(ops: seq<Op>, run: seq<Host>, s: nat, i: nat, k: nat)
    requires k <= |ops| && |run| == |ops| + 1
  {
    i < k && Asks(run[i], ops[i], s) && forall j :: i < j < k ==> !ops[j].Reset? && !Asks(run[j], ops[j], s)
  }

  /** A slot has a shadow exactly when its state was asked for since the last reset, and the shadow lies where it was last
      asked for, with the length asked for. */
  lemma {:induction false} ShadowedIff(ops: seq<Op>, run: seq<Host>, s: nat, k: nat)
    requires IsRun(ops, run) && k <= |ops| && run[0].shadows == map[]
    ensures s in run[k].shadows <==> exists i: nat :: LastAsked(ops, run, s, i, k)
    ensures forall i: nat :: LastAsked(ops, run, s, i, k) ==>
      s in run[k].shadows && run[k].shadows[s] == Shadow(ops[i].dst, ops[i].len)
    decreases k
  {
    if k != 0 {
      var j := k - 1;
      ShadowedIff(ops, run, s, j);
      assert Step(ops, run, j);
      ShadowStep(run[j], ops[j], run[k], s);
      hide Next;
      AskedNext(ops, run, s, j, k);
      assert Asks(run[j], ops[j], s) ==> LastAsked(ops, run, s, j, k);
    }
  }

  lemma AskedNext(ops: seq<Op>, run: seq<Host>, s: nat, j: nat, k: nat)
    requires k == j + 1 <= |ops| && |run| == |ops| + 1
    ensures forall i: nat :: LastAsked(ops, run, s, i, k) <==>
      if i == j then Asks(run[j], ops[j], s) else LastAsked(ops, run, s, i, j) && !ops[j].Reset? && !Asks(run[j], ops[j], s)
  {
  }

  lemma ShadowStep(h: Host, op: Op, h': Host, s: nat)
    requires Placed(h) && Next(h, op, h')
    ensures if Asks(h, op, s) then s in h'.shadows && h'.shadows[s] == Shadow(op.dst, op.len)
      else (s in h'.shadows <==> s in h.shadows && !op.Reset?) && (s in h'.shadows ==> h'.shadows[s] == h.shadows[s])
  {
  }

  /** The call makes the slot's shadow one the test may write through: the state was asked for, or contract code ran while
      the shadow was there. */
  predicate Opens(h: Host, op: Op, s: nat) {
    Asks(h, op, s) || (op.Dispatch? && s in h.shadows)
  }

  /** The call ends that: a query, which writes the shadows to the engine and reads none back, or a reset. */
  predicate Closes(op: Op) {
    op.Query? || op.Reset?
  }

  ghost predicate OpenSince(ops: seq<Op>, run: seq<Host>, s: nat, i: nat, k: nat)
    requires k <= |ops| && |run| == |ops| + 1
  {
    i < k && Opens(run[i], ops[i], s) && forall j :: i < j < k ==> !Closes(ops[j])
  }

  /** A test may write through a shadow exactly when, since the last query or reset, it asked for the state or dispatched
      with the shadow in place. */
  lemma {:induction false} PendingIff(ops: seq<Op>, run: seq<Host>, s: nat, k: nat)
    requires IsRun(ops, run) && k <= |ops| && run[0].pending == {}
    ensures s in run[k].pending <==> exists i: nat :: OpenSince(ops, run, s, i, k)
    decreases k
  {
    if k != 0 {
      var j := k - 1;
      PendingIff(ops, run, s, j);
      assert Step(ops, run, j);
      PendingStep(run[j], ops[j], run[k], s);
      hide Next;
      OpenNext(ops, run, s, j, k);
      assert Opens(run[j], ops[j], s) ==> OpenSince(ops, run, s, j, k);
    }
  }

  lemma OpenNext(ops: seq<Op>, run: seq<Host>, s: nat, j: nat, k: nat)
    requires k == j + 1 <= |ops| && |run| == |ops| + 1
    ensures forall i: nat :: OpenSince(ops, run, s, i, k) <==>
      if i == j then Opens(run[j], ops[j], s) else OpenSince(ops, run, s, i, j) && !Closes(ops[j])
  {
  }

  lemma PendingStep(h: Host, op: Op, h': Host, s: nat)
    requires Placed(h) && Next(h, op, h')
    ensures s in h'.pending <==> Opens(h, op, s) || (s in h.pending && !Closes(op))
  {
  }

  /** Where the discipline stops mattering: a test write inside one shadow reaches the engine at the next push exactly
      when the shadow is pending or the write changes nothing. After a query, with no new request for the state, it does
      not, and the next dispatch puts the old bytes back. */
  lemma WriteReachesEngineIff(h: Host, s: nat, addr: nat, bytes: Bytes)
    requires Coherent(h) && s in h.shadows
    requires h.shadows[s].dst <= addr && addr + |bytes| <= h.shadows[s].dst + Width(h, s)
    ensures var h' := h.(mem := Put(h.mem, addr, bytes));
            && Placed(h')
            && (Push(h').engine[s] == Through(SharedState(h, s), h.shadows[s].dst, Width(h, s), addr, bytes)
                <==> s in h.pending || bytes == h.mem[addr..addr + |bytes|])
  {
    var h' := h.(mem := Put(h.mem, addr, bytes));
    if s in h.pending {
      WrittenState(h, addr, bytes, h', s);
    } else {
      StaleWrite(h.engine[s], h.mem, h.shadows[s].dst, Width(h, s), addr, bytes);
    }
  }

  lemma StaleWrite(state: Bytes, mem: Bytes, dst: nat, width: nat, addr: nat, bytes: Bytes)
    requires width <= |state| && dst + width <= |mem| && mem[dst..dst + width] == state[..width]
    requires dst <= addr && addr + |bytes| <= dst + width
    ensures state == Through(state, dst, width, addr, bytes) <==> bytes == mem[addr..addr + |bytes|]
  {
    var wanted := Through(state, dst, width, addr, bytes);
    forall i | 0 <= i < |bytes| ensures wanted[addr - dst + i] == bytes[i] && state[addr - dst + i] == mem[addr + i] {
      assert mem[dst..dst + width][addr - dst + i] == mem[addr + i];
    }
    if bytes == mem[addr..addr + |bytes|] {
      assert forall i :: 0 <= i < |state| && !(addr - dst <= i < addr - dst + |bytes|) ==> wanted[i] == state[i];
      forall i | addr - dst <= i < addr - dst + |bytes| ensures wanted[i] == state[i] {
        var j := i - (addr - dst);
        assert bytes[j] == mem[addr + j];
      }
    } else {
      var i :| 0 <= i < |bytes| && bytes[i] != mem[addr..addr + |bytes|][i];
      assert wanted[addr - dst + i] != state[addr - dst + i];
    }
  }
}
