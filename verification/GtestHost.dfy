/** The gtest host itself (packages/engine/src/gtest.ts): runner memory and contract states as byte arrays changed in
    place, the shadow table and the set of shadows still to push. Each host call is tied to its value-level step. */
module GtestHost {
  import opened Wrappers
  import opened DeployWire
  import opened ShadowMemory

  const DIFF_CHUNK_BYTES: nat := 0x10_0000
  const FULL_COPY_MAX_BYTES: nat := 0x40_0000

  class Contract {
    const state: array<Byte>

    constructor (size: nat)
      ensures fresh(state) && state[..] == Zeros(size)
    {
      state := new Byte[size](_ => 0);
    }
  }

  class GtestHost {
    /** Whether the runtime offers a buffer comparison; without one, every copy is a full copy. */
    const canCompare: bool
    const mem: array<Byte>
    var handles: map<nat, Contract>
    var shadows: map<nat, Shadow>
    var shadowsToPush: set<nat>
    ghost var engine: States

    ghost function StateArrays(): set<object>
      reads `handles
    {
      set s | s in handles :: handles[s].state as object
    }

    /** `engine` is what the contract states hold, and no two buffers are the same array. */
    ghost predicate Mirrors()
      reads `handles, `engine, StateArrays()
    {
      && mem !in StateArrays()
      && (forall s, t :: s in handles && t in handles && s != t ==> handles[s].state != handles[t].state)
      && engine.Keys == handles.Keys
      && forall s :: s in handles ==> handles[s].state[..] == engine[s]
    }

    ghost function Abs(): Host
      reads this, mem
    {
      Host(mem[..], engine, shadows, shadowsToPush)
    }

    ghost predicate Valid()
      reads this, mem, StateArrays()
    {
      Mirrors() && Placed(Abs())
    }

    constructor (memory: array<Byte>, canCompare: bool)
      ensures mem == memory && this.canCompare == canCompare
      ensures Valid() && Abs() == Host(memory[..], map[], map[], {})
    {
      mem := memory;
      this.canCompare := canCompare;
      handles, shadows, shadowsToPush, engine := map[], map[], {}, map[];
    }

    /** `to.set(from)` between two views. */
    method SetView(from: array<Byte>, fromAt: nat, target: array<Byte>, targetAt: nat, len: nat)
      requires fromAt + len <= from.Length && targetAt + len <= target.Length && from != target
      modifies target
      ensures target[..] == Put(old(target[..]), targetAt, from[fromAt..fromAt + len])
    {
      forall i | 0 <= i < len {
        target[targetAt + i] := from[fromAt + i];
      }
    }

    /** One chunk: skipped when it compares equal. */
    method CopyChunk(from: array<Byte>, fromAt: nat, target: array<Byte>, targetAt: nat, n: nat)
      requires fromAt + n <= from.Length && targetAt + n <= target.Length && from != target
      modifies target
      ensures target[..] == Put(old(target[..]), targetAt, from[fromAt..fromAt + n])
    {
      if from[fromAt..fromAt + n] != target[targetAt..targetAt + n] {
        SetView(from, fromAt, target, targetAt, n);
      } else {
        PutSame(target[..], targetAt, from[fromAt..fromAt + n]);
      }
    }

    /** Copies the common prefix of two views. No one can tell the skipping of equal chunks from a plain copy. */
    method CopyChangedChunks(from: array<Byte>, fromAt: nat, fromLen: nat, target: array<Byte>, targetAt: nat, targetLen: nat)
      requires fromAt + fromLen <= from.Length && targetAt + targetLen <= target.Length && from != target
      modifies target
      ensures target[..] == Put(old(target[..]), targetAt, from[fromAt..fromAt + Least(fromLen, targetLen)])
    {
      var len := Least(fromLen, targetLen);
      if !canCompare {
        SetView(from, fromAt, target, targetAt, len);
        return;
      }
      CopyByChunks(from, fromAt, target, targetAt, len);
    }

    method CopyByChunks(from: array<Byte>, fromAt: nat, target: array<Byte>, targetAt: nat, len: nat)
      requires fromAt + len <= from.Length && targetAt + len <= target.Length && from != target
      modifies target
      ensures target[..] == Put(old(target[..]), targetAt, from[fromAt..fromAt + len])
    {
      ghost var (before, source) := (target[..], from[..]);
      var off := 0;
      PutSame(before, targetAt, []);
      while off < len
        invariant 0 <= off <= len
        invariant target[..] == Put(before, targetAt, source[fromAt..fromAt + off])
      {
        var n := Least(DIFF_CHUNK_BYTES, len - off);
        ghost var mid := target[..];
        assert from[fromAt + off..fromAt + off + n] == source[fromAt + off..fromAt + off + n];
        CopyChunk(from, fromAt + off, target, targetAt + off, n);
        ChunkStep(before, targetAt, source, fromAt, off, n, mid, target[..]);
        off := off + n;
      }
    }

    // ---------- push and pull ----------

    method PushOne(slot: nat, ghost before: Host, ghost done: set<nat>)
      requires Mirrors() && Placed(before) && slot in before.pending - done && done <= before.pending
      requires mem[..] == before.mem && shadows == before.shadows
      requires engine == PushedPart(before, done)
      modifies handles[slot].state, `engine
      ensures Mirrors() && engine == PushedPart(before, done + {slot})
    {
      var (shadow, contract) := (shadows[slot], handles[slot]);
      CopyChangedChunks(mem, shadow.dst, shadow.len, contract.state, 0, Least(shadow.len, contract.state.Length));
      engine := engine[slot := contract.state[..]];
      assert contract.state[..] == Put(before.engine[slot], 0, Window(before, slot));
      PushedMore(before, done, slot);
    }

    method PushShadowsToEngine()
      requires Valid()
      modifies `shadowsToPush, `engine, StateArrays()
      ensures Mirrors() && Abs() == Push(old(Abs()))
    {
      if shadowsToPush == {} {
        PushedNone(Abs());
        return;
      }
      PushPending();
    }

    method PushPending()
      requires Valid()
      modifies `shadowsToPush, `engine, StateArrays()
      ensures Mirrors() && Abs() == Push(old(Abs()))
    {
      ghost var before := Abs();
      PushedNone(before);
      PushAll(before);
      PushedAll(before);
      ghost var after := Abs();
      assert after == before.(engine := PushedPart(before, before.pending));
      shadowsToPush := {};
      assert Abs() == after.(pending := {});
    }

    /** Halfway through a push: the shadows in `done` are in the engine, those in `todo` are not yet. */
    ghost predicate Pushing(before: Host, todo: set<nat>, done: set<nat>)
      reads this, mem, StateArrays()
    {
      && Mirrors() && Placed(before) && mem[..] == before.mem && shadows == before.shadows
      && done !! todo && done + todo == before.pending
      && engine == PushedPart(before, done)
    }

    method PushNext(todo: set<nat>, ghost before: Host, ghost done: set<nat>) returns (rest: set<nat>, ghost more: set<nat>)
      requires Pushing(before, todo, done) && todo != {}
      modifies `engine, StateArrays()
      ensures Pushing(before, rest, more) && |rest| < |todo|
    {
      var slot :| slot in todo;
      PushOne(slot, before, done);
      rest, more := todo - {slot}, done + {slot};
    }

    method PushAll(ghost before: Host)
      requires Pushing(before, shadowsToPush, {})
      modifies `engine, StateArrays()
      ensures Mirrors() && engine == PushedPart(before, before.pending)
    {
      var todo := shadowsToPush;
      ghost var done: set<nat> := {};
      while todo != {}
        invariant Pushing(before, todo, done)
        decreases |todo|
      {
        todo, done := PushNext(todo, before, done);
      }
      assert done == before.pending;
    }

    method PullOne(slot: nat, ghost before: Host, ghost done: set<nat>)
      requires Mirrors() && engine == before.engine && shadows == before.shadows
      requires PulledPart(before, mem[..], done) && slot in shadows && slot !in done
      modifies mem, `shadowsToPush
      ensures Mirrors() && PulledPart(before, mem[..], done + {slot})
      ensures shadowsToPush == old(shadowsToPush) + {slot}
    {
      var (shadow, contract) := (shadows[slot], handles[slot]);
      var view := Least(shadow.len, contract.state.Length);
      ghost var now := mem[..];
      assert contract.state[0..view] == engine[slot][..view];
      if shadow.len <= FULL_COPY_MAX_BYTES {
        SetView(contract.state, 0, mem, shadow.dst, view);
      } else {
        CopyChangedChunks(contract.state, 0, view, mem, shadow.dst, shadow.len);
      }
      PullMore(before, now, done, slot);
      shadowsToPush := shadowsToPush + {slot};
    }

    method PullShadowsFromEngine()
      requires Valid()
      modifies `shadowsToPush, mem
      ensures Mirrors() && Pulled(old(Abs()), Abs())
    {
      ghost var before := Abs();
      PullAll(before);
      PulledWhole(before, mem[..]);
    }

    /** Halfway through a pull. */
    ghost predicate Pulling(before: Host, todo: set<nat>, done: set<nat>)
      reads this, mem, StateArrays()
    {
      && Mirrors() && engine == before.engine && shadows == before.shadows
      && done !! todo && done + todo == before.shadows.Keys && shadowsToPush == before.pending + done
      && PulledPart(before, mem[..], done)
    }

    method PullNext(todo: set<nat>, ghost before: Host, ghost done: set<nat>) returns (rest: set<nat>, ghost more: set<nat>)
      requires Pulling(before, todo, done) && todo != {}
      modifies `shadowsToPush, mem
      ensures Pulling(before, rest, more) && |rest| < |todo|
    {
      hide PulledPart;
      var slot :| slot in todo;
      PullOne(slot, before, done);
      rest, more := todo - {slot}, done + {slot};
    }

    method PullAll(ghost before: Host)
      requires Pulling(before, shadows.Keys, {})
      modifies `shadowsToPush, mem
      ensures Mirrors() && PulledPart(before, mem[..], before.shadows.Keys)
      ensures shadowsToPush == before.pending + before.shadows.Keys
    {
      var todo := shadows.Keys;
      ghost var done: set<nat> := {};
      while todo != {}
        invariant Pulling(before, todo, done)
        decreases |todo|
      {
        todo, done := PullNext(todo, before, done);
      }
      assert done == before.shadows.Keys;
    }

    // ---------- host calls ----------

    method Deploy(slot: nat, size: nat)
      requires Mirrors() && slot !in handles
      modifies `handles, `engine
      ensures slot in handles && handles == old(handles)[slot := handles[slot]] && fresh(handles[slot].state)
      ensures Mirrors() && engine == old(engine)[slot := Zeros(size)]
    {
      var contract := new Contract(size);
      handles := handles[slot := contract];
      engine := engine[slot := Zeros(size)];
    }

    /** A fresh engine with zeroed contracts; no shadow survives it. */
    method QReset(sizes: map<nat, nat>)
      requires Valid()
      modifies this
      ensures Valid() && Next(old(Abs()), Reset(sizes), Abs())
      ensures fresh(StateArrays())
    {
      shadows, shadowsToPush, handles, engine := map[], {}, map[], map[];
      DeployAll(sizes);
    }

    ghost predicate Deploying(sizes: map<nat, nat>, todo: set<nat>, done: set<nat>)
      reads this, StateArrays()
    {
      && Mirrors() && done !! todo && done + todo == sizes.Keys
      && engine == map s | s in sizes && s in done :: Zeros(sizes[s])
    }

    method DeployNext(sizes: map<nat, nat>, todo: set<nat>, ghost done: set<nat>) returns (rest: set<nat>, ghost more: set<nat>)
      requires Deploying(sizes, todo, done) && todo != {}
      modifies `handles, `engine
      ensures Deploying(sizes, rest, more) && |rest| < |todo|
      ensures fresh(StateArrays() - old(StateArrays()))
    {
      var slot :| slot in todo;
      Deploy(slot, sizes[slot]);
      rest, more := todo - {slot}, done + {slot};
    }

    method DeployAll(sizes: map<nat, nat>)
      requires Mirrors() && handles == map[]
      modifies `handles, `engine
      ensures Mirrors() && engine == map s | s in sizes :: Zeros(sizes[s])
      ensures fresh(StateArrays())
    {
      var todo := sizes.Keys;
      ghost var done: set<nat> := {};
      while todo != {}
        invariant Deploying(sizes, todo, done) && fresh(StateArrays())
        decreases |todo|
      {
        todo, done := DeployNext(sizes, todo, done);
      }
      assert done == sizes.Keys;
    }

    method SetState(slot: nat, bytes: Bytes)
      requires Mirrors() && slot in handles && |bytes| == handles[slot].state.Length
      modifies handles[slot].state, `engine
      ensures Mirrors() && engine == old(engine)[slot := bytes]
    {
      Fill(handles[slot].state, bytes);
      engine := engine[slot := bytes];
    }

    method Fill(target: array<Byte>, bytes: Bytes)
      requires |bytes| == target.Length
      modifies target
      ensures target[..] == bytes
    {
      forall i | 0 <= i < target.Length {
        target[i] := bytes[i];
      }
    }

    method QInit(slot: nat)
      requires Valid()
      modifies mem, `engine, StateArrays()
      ensures Mirrors() && Next(old(Abs()), Init(slot), Abs())
    {
      if slot !in handles {
        return;
      }
      var contract := handles[slot];
      SetState(slot, Zeros(contract.state.Length));
      if slot in shadows {
        var shadow := shadows[slot];
        var view := Least(shadow.len, contract.state.Length);
        assert engine[slot][..view] == contract.state[0..view] == Zeros(view);
        SetView(contract.state, 0, mem, shadow.dst, view);
      }
    }

    /** Copies only into a new place: an existing shadow is kept current by the pulls. */
    method QStateIn(slot: nat, dst: nat, len: nat) returns (ok: bool)
      requires Valid() && dst + len <= mem.Length
      modifies mem, `shadows, `shadowsToPush
      ensures Mirrors() && ok == (slot in handles)
      ensures Next(old(Abs()), StateIn(slot, dst, len), Abs())
    {
      if slot !in handles {
        return false;
      }
      var contract := handles[slot];
      if slot !in shadows || shadows[slot].dst != dst {
        SetView(contract.state, 0, mem, dst, Least(len, contract.state.Length));
        assert contract.state[0..Least(len, contract.state.Length)] == Abs().engine[slot][..Least(len, |Abs().engine[slot]|)];
      }
      shadows := shadows[slot := Shadow(dst, len)];
      shadowsToPush := shadowsToPush + {slot};
      return true;
    }

    method WriteOut(out: Bytes, outPtr: nat)
      requires outPtr + |out| <= mem.Length
      modifies mem
      ensures mem[..] == Put(old(mem[..]), outPtr, out)
    {
      forall i | 0 <= i < |out| {
        mem[outPtr + i] := out[i];
      }
    }

    method QQuery(ask: States -> Bytes, outPtr: nat, outCap: nat)
      requires Valid()
      requires outPtr + |Cut(ask(Push(Abs()).engine), outCap)| <= mem.Length
      modifies `shadowsToPush, `engine, mem, StateArrays()
      ensures Mirrors() && Next(old(Abs()), Query(ask, outPtr, outCap), Abs())
    {
      PushShadowsToEngine();
      var states := ReadStates();
      var out := Cut(ask(states), outCap);
      WriteOut(out, outPtr);
    }

    /** What contract code can see. */
    method ReadStates() returns (states: States)
      requires Mirrors()
      ensures states == engine
    {
      states := map s | s in handles :: handles[s].state[..];
    }

    /** What contract code left behind. */
    method WriteStates(after: States)
      requires Mirrors() && SameShape(engine, after)
      modifies `engine, StateArrays()
      ensures Mirrors() && engine == after
    {
      ghost var before := engine;
      MixedNone(before, after);
      var todo := handles.Keys;
      ghost var done: set<nat> := {};
      while todo != {}
        invariant Writing(before, after, todo, done)
        decreases |todo|
      {
        todo, done := WriteNext(before, after, todo, done);
      }
      MixedAll(before, after);
    }

    ghost predicate Writing(before: States, after: States, todo: set<nat>, done: set<nat>)
      reads this, StateArrays()
    {
      && Mirrors() && SameShape(before, after) && done !! todo && done + todo == handles.Keys == after.Keys
      && engine == Mixed(before, after, done)
    }

    method WriteNext(ghost before: States, after: States, todo: set<nat>, ghost done: set<nat>) returns (rest: set<nat>, ghost more: set<nat>)
      requires Writing(before, after, todo, done) && todo != {}
      modifies `engine, StateArrays()
      ensures Writing(before, after, rest, more) && |rest| < |todo|
    {
      var slot :| slot in todo;
      assert |engine[slot]| == handles[slot].state.Length;
      SetState(slot, after[slot]);
      MixedMore(before, after, done, slot);
      rest, more := todo - {slot}, done + {slot};
    }

    /** A procedure, a system procedure or an incoming-transfer hook: push, run, answer, pull. */
    method RunProcedure(code: States -> (States, Bytes), outPtr: nat, outCap: nat)
      requires Valid()
      requires SameShape(Push(Abs()).engine, code(Push(Abs()).engine).0)
      requires outPtr + |Cut(code(Push(Abs()).engine).1, outCap)| <= mem.Length
      modifies `shadowsToPush, `engine, mem, StateArrays()
      ensures Mirrors() && Next(old(Abs()), Dispatch(code, outPtr, outCap), Abs())
    {
      ghost var before := Abs();
      PushShadowsToEngine();
      PushedAll(before);
      Run(code, outPtr, outCap);
      PullShadowsFromEngine();
    }

    method Run(code: States -> (States, Bytes), outPtr: nat, outCap: nat)
      requires Valid() && SameShape(engine, code(engine).0)
      requires outPtr + |Cut(code(engine).1, outCap)| <= mem.Length
      modifies mem, `engine, StateArrays()
      ensures Valid()
      ensures Abs() == old(Abs()).(engine := code(old(engine)).0, mem := Put(old(mem[..]), outPtr, Cut(code(old(engine)).1, outCap)))
    {
      var states := ReadStates();
      var (after, answer) := code(states);
      WriteStates(after);
      WriteOut(Cut(answer, outCap), outPtr);
      assert engine == after;
    }
  }

  // ---------- lemmas about the copies ----------

  /** Some states rewritten, the rest as they were. */
  ghost function Mixed(before: States, after: States, done: set<nat>): States
    requires before.Keys == after.Keys
  {
    map s | s in before :: if s in done then after[s] else before[s]
  }

  lemma MixedNone(before: States, after: States)
    requires before.Keys == after.Keys
    ensures Mixed(before, after, {}) == before
  {
  }

  lemma MixedAll(before: States, after: States)
    requires before.Keys == after.Keys
    ensures Mixed(before, after, after.Keys) == after
  {
  }

  lemma MixedMore(before: States, after: States, done: set<nat>, slot: nat)
    requires before.Keys == after.Keys && slot in after
    ensures Mixed(before, after, done + {slot}) == Mixed(before, after, done)[slot := after[slot]]
  {
  }

  lemma PutMore(mem: Bytes, at: nat, a: Bytes, b: Bytes)
    requires at + |a| + |b| <= |mem|
    ensures Put(Put(mem, at, a), at + |a|, b) == Put(mem, at, a + b)
  {
  }

  lemma ChunkStep(before: Bytes, at: nat, source: Bytes, fromAt: nat, off: nat, n: nat, mid: Bytes, after: Bytes)
    requires fromAt + off + n <= |source| && at + off + n <= |before|
    requires mid == Put(before, at, source[fromAt..fromAt + off])
    requires after == Put(mid, at + off, source[fromAt + off..fromAt + off + n])
    ensures after == Put(before, at, source[fromAt..fromAt + off + n])
  {
    var (a, b) := (source[fromAt..fromAt + off], source[fromAt + off..fromAt + off + n]);
    PutMore(before, at, a, b);
    assert a + b == source[fromAt..fromAt + off + n];
  }

  lemma PutSame(mem: Bytes, at: nat, bytes: Bytes)
    requires at + |bytes| <= |mem| && mem[at..at + |bytes|] == bytes
    ensures Put(mem, at, bytes) == mem
  {
  }

  /** The engine with the shadows in `done` pushed. */
  ghost function PushedPart(h: Host, done: set<nat>): States
    requires Placed(h) && done <= h.pending
  {
    map s | s in h.engine :: if s in done then SharedState(h, s) else h.engine[s]
  }

  lemma PushedNone(h: Host)
    requires Placed(h)
    ensures PushedPart(h, {}) == h.engine
    ensures h.pending == {} ==> Push(h) == h
  {
    if h.pending == {} {
      assert Push(h).engine == h.engine;
    }
  }

  lemma PushedMore(h: Host, done: set<nat>, slot: nat)
    requires Placed(h) && done <= h.pending && slot in h.pending - done
    ensures PushedPart(h, done + {slot}) == PushedPart(h, done)[slot := Put(h.engine[slot], 0, Window(h, slot))]
  {
    assert Put(h.engine[slot], 0, Window(h, slot)) == Window(h, slot) + h.engine[slot][Width(h, slot)..];
  }

  lemma PushedAll(h: Host)
    requires Placed(h)
    ensures Push(h) == h.(engine := PushedPart(h, h.pending), pending := {})
    ensures Placed(Push(h))
  {
    assert PushedPart(h, h.pending) == Push(h).engine;
  }

  /** Part of a pull: the slots in `done` are refreshed, nothing outside the shadows has moved. */
  ghost predicate PulledPart(h: Host, mem: Bytes, done: set<nat>) {
    && Placed(h) && |mem| == |h.mem| && done <= h.shadows.Keys
    && (forall s :: s in done ==> mem[h.shadows[s].dst..h.shadows[s].dst + Width(h, s)] == h.engine[s][..Width(h, s)])
    && forall i :: 0 <= i < |mem| && !Covered(h, i) ==> mem[i] == h.mem[i]
  }

  lemma PullMore(h: Host, mem: Bytes, done: set<nat>, slot: nat)
    requires PulledPart(h, mem, done) && slot in h.shadows && slot !in done
    ensures PulledPart(h, Put(mem, h.shadows[slot].dst, h.engine[slot][..Width(h, slot)]), done + {slot})
  {
    var view := h.engine[slot][..Width(h, slot)];
    var after := Put(mem, h.shadows[slot].dst, view);
    forall s | s in done + {slot} ensures after[h.shadows[s].dst..h.shadows[s].dst + Width(h, s)] == h.engine[s][..Width(h, s)] {
      if s == slot {
        PutInPlace(mem, h.shadows[slot].dst, view);
      } else {
        PutApart(mem, h.shadows[slot].dst, view, h.shadows[s].dst, Width(h, s));
      }
    }
  }

  lemma PulledWhole(h: Host, mem: Bytes)
    requires PulledPart(h, mem, h.shadows.Keys)
    ensures Pulled(h, h.(mem := mem, pending := h.pending + h.shadows.Keys))
  {
  }
}
