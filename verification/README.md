# Verified models of the qinit algorithms

This project models the algorithmic cores of qinit, a toolchain and local node for Qubic smart contracts, and proves
properties of them over every input and every run. Code that changes state step by step is modelled as classes and
methods with loops; each such method is tied to a function on values, and what the code promises is proved about that
function.

| files | what they model |
|---|---|
| `DeployWire`, `NodeModel`, `VirtualNode` | the chunked upload and deploy protocol of the node: wire layouts, the node as a value, the node as a class with one method per message |
| `NodeRuns`, `SessionClock`, `DeployVerdicts`, `StagedRuns`, `SlotNames`, `ClientUpload`, `TransactionIndex` | what holds over whole runs of that node: origin of every deployed module and staged state, how long a session lives, what a DEPLOY reports, which slot a name means, the client's side, the two transaction indexes |
| `ShadowMemory`, `GtestHost` | contract state kept twice by the gtest host, in the engine and in runner memory, as one shared memory |
| `FuzzProgram`, `FuzzValues`, `FuzzSoundness`, `FuzzStrict`, `FuzzOverflow`, `FuzzGen` | the differential fuzzer: emitted programs as syntax trees with an evaluator, what its values mean, the rules that make them safe, what signed overflow can do to them, the generator |
| `Xorshift`, `PairwiseCover`, `CanonicalAxis`, `Variants` | the corpus generator: its random numbers, greedy pairwise covers, canonical axis texts, expansion and removal of duplicates |
| `EditDistance`, `IntegerSqrt`, `PeerFrames`, `WasmImports`, `WasmSections` | spelling suggestions, the bitwise square root of the dual fixture, frame reassembly on a peer connection, the reader of wasm import sections |
| `Words`, `Sequences`, `Wrappers` | powers of two and bitwise operations, facts about sequences, `Option`, `Result` and bytes |

Hashes, signatures, identity texts, contract code, the simulator's answers and the text decoder are parameters: the
results hold for every choice of them. The random numbers of the fuzzer are an arbitrary stream. A refused message is a reply, not
an exception.

## Findings

Places where the code does less than its comments or its setting suggest. Each has a lemma.

- A peer connection that was closed over a malformed header still parses what later calls deliver; the full record of
  events is independent of how a stream is cut exactly when no event starts past the malformed header
  (`PeerFrames.FullRecordIff`, `PeerFrames.ServedAfterClose`).
- The sweep over leftover pairs at the end of `pairwiseCover` never adds a row, because the greedy loop stops only when
  nothing is left or the row cap is reached (`PairwiseCover.GreedyRows`). The greedy rule alone makes every run complete,
  at whatever cap, only when no axis has two values (`PairwiseCover.AlwaysCompleteIff`); with seed 24, two axes of two and
  one values and a cap of two, which admits a complete cover, the two rows are the same and a pair is missing
  (`PairwiseCover.SeedStalls`).
- `nearest` makes no suggestion, although an option is near enough, exactly when the first nearest option is the empty
  string, which takes an input of at most two code units (`EditDistance.MissedIff`, `EditDistance.EmptyOptionHides`).
- `hostImports` falls out of step after a table, a global, or a memory with a maximum or a long minimum
  (`WasmImports.InStepIff`); after a constant global it lists nothing of the next import
  (`WasmImports.ConstantGlobalHides`). Numerals from 2^31 on read as negative (`WasmImports.ReadsLeb`), so a section size
  can lead the cursor back (`WasmSections.MovesOnIff`): the section loop stops exactly on the byte strings in which it
  visits no section twice (`WasmSections.EndsIff`), and six bytes after the preamble can keep it running for ever
  (`WasmSections.NeverStopsOn`).
- A DEPLOY that overtakes the UPLOAD_BEGIN of its own session is told of a session mismatch, and that stays on record after
  the session has been uploaded, deployed and loaded, until another session's outcome is recorded
  (`DeployVerdicts.EarlyReportHides`).
- A test write through a shadow that is not pending does not reach the engine, unless it changes nothing
  (`ShadowMemory.WriteReachesEngineIff`); a shadow stops being pending with every query (`ShadowMemory.PendingIff`).
- The search for a free contract slot runs past the dynamic range when the range is full (`NodeModel.AllocatedInRangeIff`).
- The rules of the fuzzer leave one kind of undefined behaviour in: overflow of signed arithmetic. Nothing else can stop a
  program within the rules (`FuzzStrict.OnlyOverflowStops`); from which operand types on an operator can overflow is decided
  by `FuzzOverflow.ArithFreeIff` and `FuzzOverflow.UnaryFreeIff`; a program that keeps to the other types never overflows
  (`FuzzOverflow.QuietRunsStrictly`); and every sum of two literals is a program within the rules that overflows
  exactly when the sum does not fit (`FuzzOverflow.OverflowNotExcluded`).

## Model

| member | source | states |
|---|---|---|
| `DeployWire.ReadBack` | packages/proto/src/deploy.ts:9-40 | a little-endian field of any width reads back as the number written, for every number that fits |
| `DeployWire.BeginRoundTrip` | packages/proto/src/deploy.ts:44-52 | parsing an encoded UPLOAD_BEGIN gives back every field, for all fields in range |
| `DeployWire.ChunkRoundTrip` | packages/proto/src/deploy.ts:59-70 | parsing an encoded UPLOAD_CHUNK gives back session, chunk number and length, and the rest is the chunk's bytes |
| `DeployWire.DeployRoundTrip` | packages/proto/src/deploy.ts:79-91 | parsing an encoded DEPLOY gives back session, slot, digest and ABI version, whatever its name |
| `NodeModel.ChunkInBounds` | packages/engine/src/transport.ts:753-770 | every chunk number below the count starts inside the session's buffer and has a window of at least one byte there |
| `NodeModel.FirstFree` | packages/engine/src/transport.ts:271-278 | the slot found is free and every lower one from the base on is taken; the search ends |
| `NodeModel.AllocatedInRangeIff` | packages/engine/src/transport.ts:262-279 | an allocated slot lies in the dynamic range exactly when the range has a free slot |
| `VirtualNode.VirtualNode.DropStaleUpload` | packages/engine/src/transport.ts:497-501 | the session goes exactly when idle for more than 32 ticks; nothing else changes |
| `VirtualNode.VirtualNode.DynUpload` | packages/engine/src/transport.ts:503-549 | the missing list is, in order, the exact complement of the received set; counts add up to the chunk count; complete means all received |
| `VirtualNode.VirtualNode.HandleUploadBegin` | packages/engine/src/transport.ts:705-741 | new state and reply are those of the value model for every field and every live, stale or absent session |
| `VirtualNode.VirtualNode.HandleUploadChunk` | packages/engine/src/transport.ts:743-775 | new state and reply are those of the value model; a refused chunk changes nothing, an accepted one writes its own window in place and starts the idle clock over |
| `NodeRuns.HandedOverIff` | packages/engine/src/transport.ts:788-818 | a DEPLOY hands its module to the simulator exactly when slot, ABI version and session are right, no chunk number of the session is missing, the bytes hash to the announced digest, which the message repeats, and they start with the magic |
| `VirtualNode.VirtualNode.HandleDeploy` | packages/engine/src/transport.ts:777-830 | new state and reply of a DEPLOY, for every refusal and every answer of the simulator |
| `VirtualNode.VirtualNode.HandleDeployTx` | packages/engine/src/transport.ts:704-833 | one transaction to the deploy address moves the node, objects in place, exactly as the value model's step for the decoded message |
| `VirtualNode.VirtualNode.ResolveDeploymentSlot` | packages/engine/src/transport.ts:262-279 | an explicit slot, else the slot of the name, else the first one neither deployed nor named |
| `VirtualNode.VirtualNode.TakeStagedState` | packages/engine/src/transport.ts:255-260 | returns the staged bytes only when complete, and always removes the entry |
| `VirtualNode.VirtualNode.StageState` | packages/engine/src/transport.ts:223-252 | new state and reply for every slot, offset, total and chunk; offset 0 restarts the entry even when the chunk is then refused |
| `VirtualNode.VirtualNode.DeployModule` | packages/engine/src/transport.ts:197-205 | the simulator is handed the module, the resolved slot and the staged state taken for it; the name is bound only when loading succeeds |
| `NodeRuns.WindowsAreSeparate` | packages/engine/src/transport.ts:764-770 | writing one chunk's window leaves every other chunk's window as it was and makes its own the chunk |
| `NodeRuns.SessionOrigin` | packages/engine/src/transport.ts:705-775 | over any run, a live session was opened by one message and none since, and its received set is exactly the chunks accepted since, each by one message whose bytes still stand |
| `NodeRuns.CompleteIsWhole` | packages/engine/src/transport.ts:799-801 | as many received chunks as announced means all of them, and the buffer is their concatenation by number, whatever the order of arrival |
| `NodeRuns.DeployedModule` | packages/engine/src/transport.ts:704-830 | over any run, a module handed to the simulator by a DEPLOY is the concatenation of one complete session, hashes to the digest announced and repeated, starts with the magic, and targets a slot of the range with the right ABI version |
| `NodeRuns.BeginOpensIff` | packages/engine/src/transport.ts:711-740 | an UPLOAD_BEGIN opens a session exactly when it is well formed and none is live or the live one is idle for more than 32 ticks; while a session lives nothing changes, and repeating the live session's is accepted; a malformed one is refused |
| `SessionClock.ClockShows` | packages/engine/src/transport.ts:733-772 | over any run, a live session's clock shows the tick of its opening or of its last accepted chunk, whichever came later |
| `SessionClock.LooksIff` | packages/engine/src/transport.ts:493-501 | over any run, a BEGIN or a poll ends the live session exactly when its last progress is more than 32 ticks ago |
| `SessionClock.Survives` | packages/engine/src/transport.ts:493-775 | over any run, a session whose every BEGIN and poll comes within 32 ticks of its last progress, and that no DEPLOY takes past the digests, stays the live one and collects exactly the chunks taken |
| `NodeRuns.Untouched` | packages/engine/src/transport.ts:704-833 | over any run, only an opening or an accepted chunk touches a session and its idle clock: refused BEGINs, chunks and DEPLOYs, polls, ticks and staging leave it as it was or end it |
| `NodeRuns.NeverWedged` | packages/engine/src/transport.ts:497-501 | over any run, once no session opened and no chunk was accepted for more than 32 ticks, any well-formed UPLOAD_BEGIN opens a session, whatever else arrived |
| `NodeRuns.RetriesGetIn` | packages/engine/src/transport.ts:711-740 | over any run in which one session holds the slot and the clock does not run backwards, well-formed BEGINs sent more than 32 ticks apart fail at most once more than the session has chunks |
| `NodeRuns.DeployFreesSlot` | packages/engine/src/transport.ts:808-830 | over any run, after a DEPLOY past the digest checks, whatever the simulator answers, the next well-formed BEGIN opens; a refusal before that leaves the session as it was |
| `NodeRuns.VerdictStands` | packages/engine/src/transport.ts:835-844 | over any run, a verdict other than "incomplete" stays until an outcome of another session is recorded |
| `NodeRuns.AnswerStands` | packages/engine/src/transport.ts:784-844 | over any run, after a DEPLOY on which the engine does not fault the recorded outcome is one of its session, until a later DEPLOY of another session is answered |
| `DeployVerdicts.OutcomeIff` | packages/engine/src/transport.ts:784-844 | over any run, unless a final verdict of its session stands or the engine faults on its module, a DEPLOY records its slot, the tick and exactly the code its facts call for, each of the eight codes by facts of state and message: armed exactly when the module was handed over and loaded, load-failed exactly when it was handed over and did not load |
| `DeployVerdicts.ReplyIff` | packages/engine/src/transport.ts:784-830 | a DEPLOY succeeds exactly when its module was handed over and loaded |
| `DeployVerdicts.OutcomeOrigin` | packages/engine/src/transport.ts:835-844 | over any run, every recorded outcome was recorded by a DEPLOY of that session and slot at that tick, when no verdict of the session stood |
| `DeployVerdicts.ArmedOrigin` | packages/engine/src/transport.ts:704-844 | over any run, "armed" on record goes back to a DEPLOY that handed one complete, hashed session of that id to that slot, and that loaded |
| `DeployVerdicts.IncompleteThenArmed` | packages/engine/src/transport.ts:835-844 | over any run, an upload reported incomplete whose session keeps making progress and whose missing chunks are taken is armed by the next DEPLOY that loads |
| `DeployVerdicts.EarlyReportHides` | packages/engine/src/transport.ts:796-844 | over any run, a session mismatch reported to a DEPLOY that came before its own session opened is still on record after that session was deployed and loaded, if no other session's outcome was recorded between |
| `SlotNames.BoundIff` | packages/engine/src/transport.ts:197-205 | over any run, a name means a slot exactly when the last deploy under the name that loaded went there |
| `SlotNames.DeploysAgain` | packages/engine/src/transport.ts:267-269 | over any run, a deploy by name alone goes to the slot of the last deploy under that name that loaded |
| `SlotNames.DeploysElsewhere` | packages/engine/src/transport.ts:262-279 | a deploy to a given slot goes there; one by a new name or none goes to the lowest slot from the base up that holds no contract and belongs to no name |
| `StagedRuns.StagedOrigin` | packages/engine/src/transport.ts:223-252 | over any interleaving, an entry holds exactly the bytes accepted for its slot since the last offset-0 restart, in order |
| `StagedRuns.EntryIff` | packages/engine/src/transport.ts:231-260 | over any run, a slot has an entry exactly when some message restarted it and none since removed it |
| `StagedRuns.TakenOnlyWhole` | packages/engine/src/transport.ts:254-260 | over any run, a deploy takes a staged state exactly when a restart of its slot stands and the bytes accepted since then fill the total it declared, and then it takes those bytes; the entry is gone afterwards either way |
| `StagedRuns.AcceptedIff` | packages/engine/src/transport.ts:223-252 | over any run, a staging chunk is accepted exactly when slot and total are in range and the total is zero, or the chunk fits the total and either restarts the slot or starts where the chunks accepted since a standing restart of the same total end |
| `StagedRuns.StagedArrives` | packages/engine/src/transport.ts:222-260 | end to end: a state of any allowed length, cut into consecutive pieces and staged in order, with anything for other slots in between, is accepted whole and is what the next module deployed to the slot starts from |
| `ClientUpload.ChunkDecodes` | packages/proto/src/deploy.ts:59-70 | the node decodes each encoded chunk of the client to that chunk |
| `ClientUpload.UsableIff` | packages/engine/src/transport.ts:704-833 | a transaction to the deploy address is a BEGIN, chunk or DEPLOY exactly by type and least length, 48, 14 and 52 bytes; any other is refused and changes nothing |
| `ClientUpload.ChunkTaken` | packages/engine/src/transport.ts:743-775 | a chunk of the client is accepted exactly if it was not received before, keeps every received chunk the client's, adds exactly its number, and starts the idle clock over |
| `ClientUpload.UploadDelivers` | packages/proto/src/deploy.ts:44-97 | end to end: the client's BEGIN finding the slot free or stale, its chunks in any order, repeated or not, and its DEPLOY deploy exactly its bytes at its slot, or nothing when they are no wasm, whatever else arrives between, as long as every other BEGIN and every poll comes within 32 ticks of the client's last new chunk, nobody else sends chunks of the session, and no DEPLOY of it comes once all chunks were sent |
| `ClientUpload.UploadIsReported` | packages/engine/src/transport.ts:808-844 | such a client is told armed, load-failed or not-wasm, by what its bytes are and how they load, unless a final verdict of its session already stands |
| `TransactionIndex.AliasesDisjoint` | packages/engine/src/transport.ts:691-698 | alias lists of two different transactions share no alias |
| `TransactionIndex.StoreAgrees` | packages/engine/src/transport.ts:658-698 | storing a transaction none of whose aliases is known keeps the two indexes in agreement |
| `TransactionIndex.PruneAllAgrees` | packages/engine/src/transport.ts:285-297 | a tick's pruning removes exactly the pruned transactions and all their aliases, leaves every other entry as it was, and keeps the agreement |
| `TransactionIndex.AlwaysAgree` | packages/engine/src/transport.ts:285-297 | in every reachable state an alias is stored for a transaction exactly when the transaction lists it |
| `TransactionIndex.LookupStands` | packages/engine/src/transport.ts:658-698 | an alias answers with the same stored transaction until a tick prunes that transaction |
| `TransactionIndex.LookupIff` | packages/engine/src/transport.ts:658-698 | over any run from an empty start, each of a transaction's three digests answers exactly while an accepted broadcast of it stands unpruned, and then with its own bytes |
| `TransactionIndex.PrunedIsGone` | packages/engine/src/transport.ts:288-293 | after the tick that prunes it, a transaction is found under no alias |
| `TransactionIndex.TransactionIndex.BroadcastTx` | packages/engine/src/transport.ts:658-681 | a broadcast with a known alias is refused and changes nothing; one the queue takes is stored under its aliases |
| `TransactionIndex.TransactionIndex.StoreRawTransaction` | packages/engine/src/transport.ts:691-698 | the loop over the distinct aliases leaves the indexes as the value model's store |
| `TransactionIndex.TransactionIndex.PruneTransaction` | packages/engine/src/transport.ts:288-293 | the loop over the listed aliases leaves the indexes as the value model's prune |
| `ShadowMemory.StepRefines` | packages/engine/src/gtest.ts:188-213 | every host call keeps coherence (a shadow that is not pending equals the engine) and does to the two copies what the one shared memory would do |
| `ShadowMemory.HostRefinesSharedMemory` | packages/engine/src/gtest.ts:188-344 | over any run of resets, inits, state requests, tracked writes, queries and dispatches, the states pushed to contract code and every shadow read by the test are those of the one memory; the caller of a query finds the answer on that memory in its buffer, cut to capacity, and no other byte moved; so does the caller of a dispatch, save where refreshed shadows lie |
| `ShadowMemory.PushSeesShared` | packages/engine/src/gtest.ts:190-198 | after a push the engine is the shared memory, so contract code sees every tracked write |
| `ShadowMemory.PullSeesEngine` | packages/engine/src/gtest.ts:202-213 | after a pull every shadow equals the engine and is pending, and the shared memory is the engine |
| `ShadowMemory.WriteReachesEngineIff` | packages/engine/src/gtest.ts:331-344 | a write into a shadow is seen by the next contract code exactly when the shadow is pending or the bytes were there already |
| `ShadowMemory.ShadowedIff` | packages/engine/src/gtest.ts:536-552 | over any run, a slot has a shadow exactly when its state was asked for since the last reset, and the shadow lies where it was last asked for |
| `ShadowMemory.PendingIff` | packages/engine/src/gtest.ts:188-344 | over any run, a shadow is pending exactly when, since the last query or reset, its state was asked for or a dispatch found it in place |
| `GtestHost.GtestHost.CopyChangedChunks` | packages/engine/src/gtest.ts:217-235 | the chunked compare-and-copy equals a plain copy of the common prefix, for every length |
| `GtestHost.GtestHost.PushShadowsToEngine` | packages/engine/src/gtest.ts:190-198 | the loop over the pending set writes exactly the pending shadows to the engine and empties the set |
| `GtestHost.GtestHost.PullShadowsFromEngine` | packages/engine/src/gtest.ts:202-213 | the loop over all shadows refreshes each from the engine, touches no other byte of memory, and makes all pending |
| `GtestHost.GtestHost.QStateIn` | packages/engine/src/gtest.ts:536-552 | copies the state on first use or at a new address only; registers the shadow and makes it pending; no contract, no change |
| `GtestHost.GtestHost.QInit` | packages/engine/src/gtest.ts:314-320 | zeroes engine state and an existing shadow alike |
| `GtestHost.GtestHost.QReset` | packages/engine/src/gtest.ts:157-186 | a fresh engine of zeroed contracts, no shadow, nothing pending |
| `GtestHost.GtestHost.QQuery` | packages/engine/src/gtest.ts:331-344 | pushes, answers into the caller's buffer cut to its capacity, does not pull |
| `GtestHost.GtestHost.RunProcedure` | packages/engine/src/gtest.ts:244-270 | pushes, runs contract code on all states, answers, pulls |
| `FuzzSoundness.MaskInRange` | packages/compiler/tools/fuzz-gen.ts:178-183 | a shift count masked as the generator masks it stays within the mask for every value, negative ones included |
| `FuzzSoundness.OddDivisor` | packages/compiler/tools/fuzz-gen.ts:185-246 | a divisor or-ed with one is never zero and keeps its type |
| `FuzzSoundness.ResolvesTo` | packages/compiler/tools/fuzz-gen.ts:249-255 | a helper call with exact parameter types resolves to that overload only |
| `FuzzSoundness.ExprSafe` | packages/compiler/tools/fuzz-gen.ts:164-255 | an expression within the rules evaluates without a fault in every agreeing environment |
| `FuzzSoundness.StmtSafe` | packages/compiler/tools/fuzz-gen.ts:257-401 | a statement within the rules runs without a fault, leaves the scope's variables bound and every read-only one, loop counters included, unchanged |
| `FuzzSoundness.LoopSafe` | packages/compiler/tools/fuzz-gen.ts:320-332 | a loop within the rules ends within its bound |
| `FuzzSoundness.InvokeSafe` | packages/compiler/tools/fuzz-gen.ts:406-448 | a helper call returns without a fault; helpers call only earlier helpers, so calls end |
| `FuzzSoundness.ProgramNeverFaults` | packages/compiler/tools/fuzz-gen.ts:104-503 | a program within the rules runs to the end on every input and every state when signed arithmetic wraps |
| `FuzzStrict.OnlyOverflowStops` | packages/compiler/tools/fuzz-gen.ts:104-503 | when signed overflow is a fault, as in C++, a program within the rules either runs to the end with the wrapping run's result or stops at a signed overflow; no other fault is possible |
| `FuzzValues.ConvertMeans` | packages/compiler/tools/fuzz-gen.ts:185-246 | the evaluator's conversion gives the one value of the type that is the same word |
| `FuzzValues.ArithMeans` | packages/compiler/tools/fuzz-gen.ts:192-195 | sums, differences and products are the exact ones as words of the common type, bit operations work bit by bit |
| `FuzzValues.SignedIsExact` | packages/compiler/tools/fuzz-gen.ts:192-195 | without overflow a signed result is the exact number |
| `FuzzValues.ShiftMeans` | packages/compiler/tools/fuzz-gen.ts:200-203 | a shift is defined exactly for counts below the width; it multiplies by a power of two, as words, or divides rounding down |
| `FuzzValues.QuotientMeans` | packages/compiler/tools/fuzz-gen.ts:204-209 | a division is defined exactly for non-zero divisors; it truncates toward zero |
| `FuzzOverflow.ArithFreeIff` | packages/compiler/tools/fuzz-gen.ts:192-195 | for every operator and pair of operand types: no values of these types overflow exactly when the types are free, a test on operator and types alone |
| `FuzzOverflow.UnaryFreeIff` | packages/compiler/tools/fuzz-gen.ts:215-218 | negation and a step either way cannot overflow exactly on types of at most 16 bits and on unsigned ones |
| `FuzzOverflow.SameExpr` | packages/compiler/tools/fuzz-gen.ts:185-246 | an expression whose operators have free operand types evaluates alike under both rules, and its value has the static type and fits it |
| `FuzzOverflow.QuietRunsStrictly` | packages/compiler/tools/fuzz-gen.ts:104-503 | a program whose operators, negations, steps and compound assignments all have free operand types behaves alike under both rules, so within the generator's rules it runs to the end without signed overflow |
| `FuzzOverflow.OverflowNotExcluded` | packages/compiler/tools/fuzz-gen.ts:185-275 | for all pairs of `int` literals: their sum, declared as a local, is a whole program within the generator's rules, and on every input it stops at a signed overflow exactly when the sum does not fit |
| `FuzzGen.Gen.Expression` | packages/compiler/tools/fuzz-gen.ts:185-246 | for all random choices the expression keeps the rules: names in scope, guarded divisors and shift counts, resolvable calls; it ends by depth; its first draw determines its form |
| `FuzzGen.Gen.DeclStmt` | packages/compiler/tools/fuzz-gen.ts:257-275 | declares one fresh name in the innermost scope, with an initializer that does not see it |
| `FuzzGen.Gen.ForStmt` | packages/compiler/tools/fuzz-gen.ts:320-332 | the counter is fresh, read-only and visible in the body only; the bound is at most eight |
| `FuzzGen.Gen.SwitchStmt` | packages/compiler/tools/fuzz-gen.ts:334-358 | the cases only assign to mutable names; their statements are taken off the budget |
| `FuzzGen.Gen.Statement` | packages/compiler/tools/fuzz-gen.ts:371-401 | the statement keeps the rules, grows the scope by what it declares, numbers its names freshly and takes exactly its statements off the budget, which never falls below minus nine; its first draw, the depth and the scope determine its form |
| `FuzzGen.FormsDrawn` | packages/compiler/tools/fuzz-gen.ts:371-401 | every form of statement comes out for some draw, except that with nothing to assign to there are only declarations, and at the bottom nothing that nests |
| `FuzzGen.ExprFormsDrawn` | packages/compiler/tools/fuzz-gen.ts:185-246 | every form of expression comes out for some draw, a call only if there is a helper to call |
| `FuzzGen.Gen.HelperDef` | packages/compiler/tools/fuzz-gen.ts:406-422 | a helper calls only helpers defined before it and has at most 14 counted statements |
| `FuzzGen.Gen.GenHelpers` | packages/compiler/tools/fuzz-gen.ts:424-448 | one to three families of one or two helpers, as many as the first draw says, with pairwise distinct signatures, all within the rules |
| `FuzzGen.Gen.Generate` | packages/compiler/tools/fuzz-gen.ts:452-503 | for all random choices: the program keeps the rules; on every input it runs to the end when arithmetic wraps, and otherwise nothing but signed overflow can stop it; all declared names are distinct; the procedure has 3 to 20 statements at its top, the first two declarations, fewer than five only when the budget ran out, and at most 57 counted ones; the names reported at top level are those declared there |
| `Xorshift.AdvanceIsBijective` | scripts/solidity-port/cover.ts:7-14 | the three shift-xor steps together are undone, and redone, by an explicit inverse: a bijection on 32-bit words |
| `Xorshift.OnlyZeroLeadsToZero` | scripts/solidity-port/cover.ts:7-14 | a step gives zero exactly from zero |
| `Xorshift.NeverZero` | scripts/solidity-port/cover.ts:4-15 | from every seed, after any number of draws, the state is not zero |
| `PairwiseCover.KeyTextInjective` | scripts/solidity-port/cover.ts:17-19 | two pairs with the same key text are the same pair, so the set of keys is a set of pairs |
| `PairwiseCover.CountGain` | scripts/solidity-port/cover.ts:51-57 | the gain counted is the number of set axes whose pair with the value is still required |
| `PairwiseCover.ChooseValue` | scripts/solidity-port/cover.ts:48-64 | the value chosen has maximal gain, whatever the tie-breaking draws, and is the one the generator's state determines |
| `PairwiseCover.ShuffledIndices` | scripts/solidity-port/cover.ts:85-92 | the order is a permutation of the axes, whatever the draws |
| `PairwiseCover.BuildRow` | scripts/solidity-port/cover.ts:42-65 | every entry is in range and each axis, in shuffled order, took a value of maximal gain against the axes set before it |
| `PairwiseCover.GainsAreCoverage` | scripts/solidity-port/cover.ts:42-68 | conservation: the gains of a row, summed, are the required pairs it covers, each counted once |
| `PairwiseCover.RequiredPairs` | scripts/solidity-port/cover.ts:28-35 | the four nested loops collect every pair of values of every two axes and nothing else |
| `PairwiseCover.CoverOnce` | scripts/solidity-port/cover.ts:39-69 | one turn of the loop drops from the required set exactly the row's pairs, as many as its gains add up to |
| `PairwiseCover.GreedyRows` | scripts/solidity-port/cover.ts:37-83 | the required set is always all pairs minus the covered ones; rows stay within the cap, each greedy against what was left; below the cap nothing is left |
| `PairwiseCover.Cover` | scripts/solidity-port/cover.ts:23-83 | with two or more axes and fewer rows than the cap, every pair of values of every two axes is in some row; one axis lists its values up to the cap; sizes, seed and cap determine the rows |
| `PairwiseCover.AlwaysCompleteIff` | scripts/solidity-port/cover.ts:37-82 | for two or more inhabited axes and any cap of at least one, every run the greedy rule admits ends complete exactly when no axis has two values |
| `PairwiseCover.SeedStalls` | scripts/solidity-port/cover.ts:37-82 | seed 24 over domains of two and one values with cap two gives the same row twice and leaves a pair out, although two rows can cover all pairs |
| `PairwiseCover.EveryValueAppears` | scripts/solidity-port/cover.ts:21-22 | a complete cover of two or more non-empty axes shows every value of every axis |
| `CanonicalAxis.SortSorts` | scripts/solidity-port/registry.ts:168 | sorting by name gives an ordered list of the same entries |
| `CanonicalAxis.JoinInjective` | scripts/solidity-port/registry.ts:169-170 | without separators in names and without commas in values the joined text determines the list |
| `CanonicalAxis.CanonicalIff` | scripts/solidity-port/registry.ts:164-171 | two assignments, their names free of separators and their values of commas, have the same canonical text exactly when they have the same entries, in whatever order |
| `CanonicalAxis.SeparatorsCollide` | scripts/solidity-port/registry.ts:164-171 | a fact about the function alone, since the repository's axis values contain no comma: with one in a value two different assignments would share their text |
| `Variants.RankOfRow` | scripts/solidity-port/registry.ts:229-239 | the k-th row of the cross product has rank k |
| `Variants.RowOfRank` | scripts/solidity-port/registry.ts:229-239 | every combination is the row at its rank |
| `Variants.CrossProduct` | scripts/solidity-port/registry.ts:229-239 | the loops list the rows by rank, as many as the product of the sizes, the last axis varying fastest |
| `Variants.EveryCombinationOnce` | scripts/solidity-port/registry.ts:228-239 | every combination is listed, and no row twice |
| `Variants.Collect` | scripts/solidity-port/registry.ts:195-225 | the loop with its two seen-sets keeps exactly the assignments with a new text and a new fingerprint, up to the cap, at least one |
| `Variants.KeptDifferent` | scripts/solidity-port/registry.ts:195-225 | kept variants are pairwise distinct in text and in fingerprint, come from the assignments, and the first assignment is first |
| `Variants.EveryAssignmentKept` | scripts/solidity-port/registry.ts:198-213 | with names free of separators and values of commas, every assignment has a kept variant that renders to the same code |
| `Variants.Rows` | scripts/solidity-port/registry.ts:183-187 | every combination in order when asked for and few enough; otherwise at most one row less than the cap on variants, at least one: of one axis its first values, of several rows the greedy rule allows, and exactly those the seed draws; uncut, the rows show every pair of values |
| `Variants.ExpandArchetype` | scripts/solidity-port/registry.ts:174-226 | the axes in the order first named; the base first, then what is kept of the assignments of exactly those rows, at most the cap and at least one, all distinct; when the cap did not stop it every assignment has a variant with its fingerprint, and when the rows were not cut either every pair of axis values stands in one of the assignments whose fingerprint is kept (names free of separators, values of commas) |
| `EditDistance.DistanceIsLeast` | packages/cli/src/args.ts:171-191 | the recurrence gives the least cost over all scripts of keeping, substituting, inserting and deleting |
| `EditDistance.Compute` | packages/cli/src/args.ts:171-191 | the table-filling loops return that least cost, for all texts |
| `EditDistance.ZeroIffEqual` | packages/cli/src/args.ts:171-191 | the distance is zero exactly between equal texts |
| `EditDistance.Symmetric` | packages/cli/src/args.ts:171-191 | the distance is symmetric, by reversing scripts |
| `EditDistance.Triangle` | packages/cli/src/args.ts:171-191 | the triangle inequality, by merging two scripts into one that costs no more than both |
| `EditDistance.Nearest` | packages/cli/src/args.ts:193-207 | returns the first option at the least distance exactly when it is not empty and within the threshold |
| `EditDistance.MissedIff` | packages/cli/src/args.ts:205-206 | an option within the threshold goes without a suggestion exactly when the first nearest option is empty and the input has at most two code units |
| `EditDistance.SuggestionIff` | packages/cli/src/args.ts:193-207 | otherwise there is a suggestion exactly when some option is within the threshold |
| `EditDistance.EmptyOptionHides` | packages/cli/src/args.ts:205-206 | inputs and options for which that happens |
| `IntegerSqrt.Root` | fixtures/QpiDual.h:457-475 | for every 64-bit value the loops end with the integer square root, and no sum wraps |
| `IntegerSqrt.SumFits` | fixtures/QpiDual.h:464-468 | the sum compared in the loop is the growth of the square at this step, and fits 64 bits |
| `IntegerSqrt.RootUnique` | fixtures/QpiDual.h:457-475 | no other number is the integer square root |
| `IntegerSqrt.RootOfSquare` | fixtures/QpiDual.h:456-476 | the root of the wrapped square of the seed, which is the seed exactly when the seed is below 2^32 |
| `PeerFrames.Connection.OnData` | packages/engine/src/peer-server.ts:83-129 | the loop dispatches the frames of buffer plus chunk in order, closes on a malformed size, and keeps the leftover |
| `PeerFrames.ScanSplits` | packages/engine/src/peer-server.ts:82-129 | bytes that arrive later change nothing already dispatched: scanning resumes at the leftover, and after a close they are dropped |
| `PeerFrames.CutsDoNotMatter` | packages/engine/src/peer-server.ts:82-129 | however a stream is cut, the events up to and including the first close are the same, and without a close the leftover is too |
| `PeerFrames.FramesComeThrough` | packages/engine/src/protocol/peer-codec.ts:94-103 | frames written by the codec are dispatched, in order and whole, before whatever follows them |
| `PeerFrames.StreamConserved` | packages/engine/src/peer-server.ts:93-128 | the dispatched frames, written out again, followed by what was not dispatched, are the stream |
| `PeerFrames.FullRecordIff` | packages/engine/src/peer-server.ts:98-102 | the record of events past a close is the same for every cutting exactly when no event starts past the malformed header |
| `PeerFrames.ServedAfterClose` | packages/engine/src/peer-server.ts:98-102 | a frame after any malformed header is dropped when it arrives with it and dispatched when it arrives in the next call |
| `WasmImports.ReadVaruint` | scripts/solidity-port/wamr-probe.ts:51-61 | the loop with 32-bit operators ends on all bytes and positions and returns what the specification function gives |
| `WasmImports.ReadsLeb` | scripts/solidity-port/wamr-probe.ts:51-61 | every unsigned LEB128 numeral of a 32-bit value, padded ones included, is consumed whole and gives the value back exactly below 2^31 |
| `WasmImports.LebIsLeb` | scripts/solidity-port/wamr-probe.ts:51-61 | the shortest numeral of every 32-bit value is such a numeral |
| `WasmImports.InStepIff` | scripts/solidity-port/wamr-probe.ts:81-85 | the reader ends where the descriptor ends exactly on function imports and on memories with a one-byte minimum and no maximum |
| `WasmImports.NamesRead` | scripts/solidity-port/wamr-probe.ts:70-87 | from an import section the reader lists exactly the host's field names in order, if all but the last import keep it in step |
| `WasmSections.MovesOnIff` | scripts/solidity-port/wamr-probe.ts:64-89 | on any bytes, the cursor moves on exactly when the section size is below 2^31 or within its own header's length of 2^32, and stands still on exactly one size |
| `WasmSections.EndsIfMovesOn` | scripts/solidity-port/wamr-probe.ts:64-89 | the section loop stops on every byte string whose visited sections move the cursor on |
| `WasmSections.EndsIff` | scripts/solidity-port/wamr-probe.ts:64-89 | the section loop stops exactly on the byte strings in which it visits no section twice |
| `WasmSections.NeverStops` | scripts/solidity-port/wamr-probe.ts:64-89 | a loop that reaches a section whose size is 2^32 less its own header never stops |
| `WasmSections.NeverStopsOn` | scripts/solidity-port/wamr-probe.ts:64-89 | six bytes after the preamble with which the loop never stops |
| `WasmSections.ModuleListed` | scripts/solidity-port/wamr-probe.ts:63-91 | on a module the loop stops after as many turns as there are sections, having listed exactly the host's field names in order |
| `WasmSections.HostImports` | scripts/solidity-port/wamr-probe.ts:63-91 | on any bytes on which it stops, the loop lists what the visited import sections hold; on a module exactly the host's field names, in order |
| `WasmImports.ConstantGlobalHides` | scripts/solidity-port/wamr-probe.ts:81-85 | after a constant global the next import is not listed, whatever it is |

## Left out

- FuzzGen.Gen.Expression: states the safety and the form of what is generated, not the operators and operands drawn; the seeded random numbers are an arbitrary stream.
- FuzzGen.Gen.Generate: the printed text, the input rows and the field checksums are not modelled, only the program they spell.
- FuzzSoundness.ProgramNeverFaults: holds for wrapping arithmetic only, because the generator does not exclude signed overflow; FuzzStrict and FuzzOverflow say what holds when overflow is a fault.
- FuzzProgram: shifts of negative numbers and conversions of values that do not fit have the meaning C++20 gives them.
- GtestHost.GtestHost.RunProcedure: contract code is a function of the states it may read and write and does not resize them; growth of runner memory, shared-memory contracts and rewards are not modelled. System procedures, transfer callbacks and tick calls push and pull the same way.
- GtestHost.GtestHost.QQuery: contract code run by a query does not change any state.
- PeerFrames.Connection.OnData: calls run one after another; overlap of two asynchronous calls on one connection is not modelled, and what a route answers is left out.
- WasmSections.HostImports: names the host's fields for legal modules below 2^31 bytes whose imports, all but the last of a section, are functions or small memories; on other bytes the names listed depend on the bytes skipped.
- Variants.ExpandArchetype: the rendered contract is known by its fingerprint; the check of emitted source and the short hash that names a variant are not modelled. The order of axis names is any strict total order.
- VirtualNode.VirtualNode.HandleDeployTx: the wording of outcomes and errors, and the extraction of the contract name from the payload, are left out; minting of shares is taken not to fail.
- TransactionIndex is a class of its own, apart from the node's other fields; the checks before a broadcast reaches the index are left out.
- EditDistance.Nearest: the threshold is the exact integer two fifths of the length, rounded up; floating point gives the same for every length a string can have.
- The simulator, ledger, oracle engine, contract runtime, hashing, signatures and identity text: parameters or not part of this model.
- HTTP routes, explorer views, JSON shaping, undeploy and slot metadata: easy members.
- `scripts/solidity-port/emit.ts` and `scripts/config/sync-sources.ts`: rewriting of text by regular expressions.
- `packages/compiler/tools/fuzz-gen-constexpr.ts`: a generator of constant expressions, not modelled.
- Command line, editor, release and process orchestration.
