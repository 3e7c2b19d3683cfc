/** Which slot a contract name means (packages/engine/src/transport.ts): the one its last loaded deploy went to, so a second
    deploy under the name upgrades the first; a deploy that fails to load binds nothing. */
module SlotNames {
  import opened Wrappers
  import opened NodeModel

  predicate Loads(m: Message) {
    (m.Deploy? || m.DirectDeploy?) && m.sim.load == Loaded
  }

  /** Message k handed a module over under this name, and it loaded. */
  predicate LoadsUnder(trace: seq<Message>, run: seq<Node>, k: nat, name: string)
    requires k < |trace| && |run| == |trace| + 1
  {
    && Loads(trace[k]) && |run[k + 1].deployments| == |run[k].deployments| + 1
    && run[k + 1].deployments[|run[k].deployments|].name == Some(name)
  }

  /** The last such message before j was i, and it went to this slot. */
  ghost predicate LastLoad(trace: seq<Message>, run: seq<Node>, name: string, slot: nat, i: nat, j: nat)
    requires j <= |trace| && |run| == |trace| + 1
  {
    && i < j && LoadsUnder(trace, run, i, name) && run[i + 1].deployments[|run[i].deployments|].slot == slot
    && forall k :: i < k < j ==> !LoadsUnder(trace, run, k, name)
  }

  /** A load binds its name to its slot, and nothing else touches a name. */
  lemma BindStep(cfg: Config, trace: seq<Message>, run: seq<Node>, k: nat, name: string)
    requires k < |trace| && |run| == |trace| + 1 && Step(cfg, trace, run, k)
    ensures LoadsUnder(trace, run, k, name) ==>
      name in run[k + 1].slotsByName && run[k + 1].slotsByName[name] == run[k + 1].deployments[|run[k].deployments|].slot
    ensures !LoadsUnder(trace, run, k, name) ==>
      && (name in run[k + 1].slotsByName <==> name in run[k].slotsByName)
      && (name in run[k].slotsByName ==> run[k + 1].slotsByName[name] == run[k].slotsByName[name])
  {
    hide Record;
    hide Refusal;
    hide ResolveSlot;
    hide Takes;
    RecordKeeps();
    match trace[k]
    case Deploy(_, _, _) =>
    case DirectDeploy(_, _, _, _) =>
    case _ =>
  }

  lemma RecordKeeps()
    ensures forall n, sessionId, slot, code :: var r := Record(n, sessionId, slot, code);
      r.slotsByName == n.slotsByName && r.deployments == n.deployments
  {
  }

  /** A name means a slot exactly when its last loaded deploy went there. */
  lemma {:induction false} BoundIff(cfg: Config, trace: seq<Message>, run: seq<Node>, name: string, slot: nat, j: nat)
    requires IsRun(cfg, trace, run) && name !in run[0].slotsByName && j <= |trace|
    ensures name in run[j].slotsByName && run[j].slotsByName[name] == slot <==>
      exists i: nat :: LastLoad(trace, run, name, slot, i, j)
    decreases j
  {
    hide LastLoad;
    hide LoadsUnder;
    hide Apply;
    if j == 0 {
      NoneYet(trace, run, name, slot);
    } else {
      assert Step(cfg, trace, run, j - 1);
      BindStep(cfg, trace, run, j - 1, name);
      BoundIff(cfg, trace, run, name, slot, j - 1);
      if LoadsUnder(trace, run, j - 1, name) {
        Newest(trace, run, name, slot, j);
      } else {
        NotThere(trace, run, name, slot, j - 1, j);
      }
    }
  }

  lemma NoneYet(trace: seq<Message>, run: seq<Node>, name: string, slot: nat)
    requires |run| == |trace| + 1
    ensures forall i: nat :: !LastLoad(trace, run, name, slot, i, 0)
  {
  }

  lemma Newest(trace: seq<Message>, run: seq<Node>, name: string, slot: nat, j: nat)
    requires 0 < j <= |trace| && |run| == |trace| + 1 && LoadsUnder(trace, run, j - 1, name)
    ensures |run[j].deployments| == |run[j - 1].deployments| + 1
    ensures (exists i: nat :: LastLoad(trace, run, name, slot, i, j)) <==> run[j].deployments[|run[j - 1].deployments|].slot == slot
  {
    if run[j].deployments[|run[j - 1].deployments|].slot == slot {
      assert LastLoad(trace, run, name, slot, j - 1, j);
    }
  }

  lemma NotThere(trace: seq<Message>, run: seq<Node>, name: string, slot: nat, k: nat, j: nat)
    requires j == k + 1 <= |trace| && |run| == |trace| + 1 && !LoadsUnder(trace, run, k, name)
    ensures (exists i: nat :: LastLoad(trace, run, name, slot, i, j)) <==> (exists i: nat :: LastLoad(trace, run, name, slot, i, k))
  {
    if i: nat :| LastLoad(trace, run, name, slot, i, k) {
      assert LastLoad(trace, run, name, slot, i, j);
    }
    if i: nat :| LastLoad(trace, run, name, slot, i, j) {
      assert LastLoad(trace, run, name, slot, i, k);
    }
  }

  /** A deploy by name alone goes where the last loaded deploy under that name went. */
  lemma DeploysAgain(cfg: Config, trace: seq<Message>, run: seq<Node>, i: nat, j: nat, name: string, slot: nat)
    requires IsRun(cfg, trace, run) && j < |trace| && name !in run[0].slotsByName && LastLoad(trace, run, name, slot, i, j)
    requires trace[j].DirectDeploy? && trace[j].at.None? && trace[j].name == Some(name)
    ensures |run[j + 1].deployments| == |run[j].deployments| + 1 && run[j + 1].deployments[|run[j].deployments|].slot == slot
  {
    BoundIff(cfg, trace, run, name, slot, j);
    assert Step(cfg, trace, run, j);
  }

  /** A deploy to a given slot goes there. One by a name that means nothing yet, or by no name, goes to the lowest slot from
      the base up that holds no contract and belongs to no name. It is answered well
      exactly when the module loads. */
  lemma DeploysElsewhere(cfg: Config, s: Node, m: Message)
    requires NodeModel.Valid(s) && m.DirectDeploy?
    ensures |Apply(cfg, s, m).0.deployments| == |s.deployments| + 1
    ensures var slot := Apply(cfg, s, m).0.deployments[|s.deployments|].slot;
      && (m.at.Some? ==> slot == m.at.value)
      && (m.at.None? && (m.name.None? || m.name.value !in s.slotsByName) ==>
            && slot >= cfg.slotBase && slot !in s.contracts && slot !in s.slotsByName.Values
            && forall t :: cfg.slotBase <= t < slot ==> t in s.contracts || t in s.slotsByName.Values)
    ensures var reply := Apply(cfg, s, m).1; (reply == Accepted <==> m.sim.load == Loaded) && (reply == Faulted <==> m.sim.load == EngineFault)
  {
    var taken := s.contracts + s.slotsByName.Values;
    var free := FirstFree(cfg.slotBase, taken);
    forall t | cfg.slotBase <= t < free ensures t in s.contracts || t in s.slotsByName.Values {
      assert t in taken;
    }
  }
}
