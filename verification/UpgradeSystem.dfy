/** The whole upgrade: the root, any number of devices and a network that may lose, repeat and
    reorder everything. Messages are never removed from the network: losing one means that it
    is never read, repeating it that it is read again, and any order is possible. The root may
    take its steps in any order, which includes the order in which its code takes them, see
    `UpgradeTraces.SendRefines`. */
module UpgradeSystem {
  import opened Prelude
  import opened Bitmap
  import opened Addresses
  import opened UpgradeNode
  import opened UpgradeInvariant
  import opened UpgradeRuns
  import opened UpgradeRoot
  import opened UpgradeAccounting
  import opened UpgradeCoverage
  import opened UpgradeOutcome

  /** A report together with what the sender's update partition held when it was sent and whether
      it was selected for booting. The root only ever sees `msg`. */
  datatype SentReport = SentReport(msg: Msg, partition: seq<Byte>, selected: bool)

  /** `asked`, `packets` and `reports` are the network; `stopped` lists who left the upgrade. */
  datatype System = System(
    root: Root,
    nodes: map<Addr, Node>,
    asked: bool,
    packets: set<nat>,
    reports: set<SentReport>,
    stopped: set<Addr>)

  datatype Step =
    | NodeStep(a: Addr, op: Op)
    | RootStart
    | RootDrain(r: SentReport)
    | RootAsk
    | RootResponse(r: SentReport)
    | RootMid(r: SentReport)
    | RootSend(k: nat)

  /** What everything starts from; `factory` is what the devices run before the upgrade, and
      `reboots` says whether devices may restart before the upgrade is over. */
  datatype Setup = Setup(t: Transfer, targets: seq<Addr>, factory: map<Addr, seq<Byte>>, reboots: bool)

  /** Restarts leave count and bitmap in step. */
  ghost predicate Sound(u: Setup, s: System) {
    u.reboots ==> forall a | a in s.nodes :: Resumable(u.t, s.nodes[a].interval)
  }

  ghost predicate Start(u: Setup, s: System)
    requires u.t.Valid()
  {
    && NoDup(u.targets)
    && s.root.unfinished == u.targets && s.root.successed == [] && |s.root.progress| == BITMAP_SIZE
    && s.nodes.Keys == u.factory.Keys
    && (forall a | a in s.nodes :: Initial(u.t, s.nodes[a]) && s.nodes[a].running == u.factory[a])
    && !s.asked && s.packets == {} && s.reports == {} && s.stopped == {}
  }

  /** A device can only receive what the root has sent. */
  ghost predicate Possible(u: Setup, s: System, step: Step)
    requires u.t.Valid()
  {
    match step
    case NodeStep(a, op) =>
      && a in s.nodes && WellFormed(s.nodes[a])
      && (match op
          case Ask => s.asked
          case Data(k, _) => k in s.packets
          case Interrupt(k, _) => k in s.packets
          case Reboot => u.reboots
          case Stop => true)
    case RootDrain(r) => r in s.reports
    case RootResponse(r) => r in s.reports && r.msg.Readable() && |s.root.progress| == BITMAP_SIZE
    case RootMid(r) => r in s.reports
    case RootSend(k) => k < u.t.PacketNum() && Clear(s.root.progress, k)
    case _ => true
  }

  ghost predicate Clear(progress: seq<Byte>, k: nat) {
    k < 8 * |progress| && !GetBit(progress, k)
  }

  function Sends(a: Addr, n: Node, rs: seq<Report>): (s: set<SentReport>) {
    set r | r in rs :: SentReport(Msg(a, r), n.update, n.bootsUpdate)
  }

  /** The root has read `m`; who disappears from its lists has left the upgrade. */
  function RootReads(s: System, root: Root, m: Msg): (s': System) {
    s.(root := root,
       stopped := s.stopped + if m.src in s.root.unfinished && m.src !in root.unfinished + root.successed
                              then {m.src} else {})
  }

  ghost function Take(u: Setup, s: System, step: Step): (s': System)
    requires u.t.Valid() && Possible(u, s, step)
  {
    match step
    case NodeStep(a, op) =>
      var (n, rs) := Apply(u.t, s.nodes[a], op);
      s.(nodes := s.nodes[a := n], reports := s.reports + Sends(a, n, rs))
    case RootStart => s.(root := s.root.(requested := []))
    case RootDrain(r) => RootReads(s, DrainStep(s.root, r.msg), r.msg)
    case RootAsk => s.(root := BeginRequest(s.root), asked := true)
    case RootResponse(r) => RootReads(s, ResponseStep(s.root, r.msg), r.msg)
    case RootMid(r) => RootReads(s, MidStep(s.root, r.msg), r.msg)
    case RootSend(k) => s.(packets := s.packets + {k})
  }

  // ---------- the invariant ----------

  ghost predicate NodesOk(u: Setup, s: System)
    requires u.t.Valid()
  {
    && s.nodes.Keys == u.factory.Keys
    && forall a | a in s.nodes ::
         && UpgradeInvariant.Inv(u.t, s.nodes[a])
         && (s.nodes[a].running == u.factory[a] || Installed(u.t, s.nodes[a].running))
  }

  ghost predicate NetworkOk(t: Transfer, s: System)
    requires t.Valid()
  {
    && (forall k | k in s.packets :: k < t.PacketNum())
    && forall r | r in s.reports ::
         ReportOk(t, r.msg.report) && (r.msg.Complete() ==> Installed(t, r.partition))
  }

  ghost predicate CompleteReport(s: System, a: Addr, r: SentReport) {
    r in s.reports && r.msg.src == a && r.msg.Complete()
  }

  ghost predicate StopReport(s: System, a: Addr, r: SentReport) {
    r in s.reports && r.msg.src == a && r.msg.Stopped()
  }

  /** The targets are split among the unfinished, the successful and the stopped devices, and
      nobody has moved without a report of its own. */
  ghost predicate AccountsOk(u: Setup, s: System) {
    && NoDup(s.root.unfinished + s.root.successed)
    && (forall a :: a in u.targets <==> a in s.root.unfinished || a in s.root.successed || a in s.stopped)
    && (forall a | a in s.stopped :: a !in s.root.unfinished && a !in s.root.successed)
    && (forall a | a in s.root.successed :: exists r :: CompleteReport(s, a, r))
    && (forall a | a in s.stopped :: exists r :: StopReport(s, a, r))
  }

  /** What holds of a device in every run, restarts included. */
  ghost predicate Consistent(t: Transfer, n: Node) {
    && WellFormed(n)
    && (n.config.Some? ==> n.config.value.totalSize == |t.image|)
    && (n.saved.Some? ==> n.saved.value.totalSize == |t.image|)
  }

  /** What holds of the system in every run, restarts included. */
  ghost predicate Basics(u: Setup, s: System)
    requires u.t.Valid()
  {
    && (forall a | a in s.nodes :: Consistent(u.t, s.nodes[a]) && CompleteIsSelected(s.nodes[a]))
    && (forall r | r in s.reports ::
          r.msg.report.totalSize == |u.t.image| && r.msg.Readable() && (r.msg.Complete() ==> r.selected))
    && AccountsOk(u, s) && |s.root.progress| == BITMAP_SIZE
  }

  ghost predicate SystemInv(u: Setup, s: System)
    requires u.t.Valid()
  {
    Basics(u, s) && NodesOk(u, s) && NetworkOk(u.t, s) && Sound(u, s)
  }

  // ---------- every step ----------

  lemma StartBasics(u: Setup, s: System)
    requires u.t.Valid() && Start(u, s)
    ensures Basics(u, s)
  {
    assert u.targets + [] == u.targets;
  }

  lemma OpConsistent(t: Transfer, n: Node, op: Op)
    requires t.Valid() && Consistent(t, n)
    ensures var (n', reports) := Apply(t, n, op);
            && Consistent(t, n')
            && forall r | r in reports ::
                 r.totalSize == |t.image| && (r.writtenSize != 0 && r.writtenSize != r.totalSize ==> |r.bitmap| == BITMAP_SIZE)
  {
    if op.Data? && op.k < t.PacketNum() {
      DataConsistent(t, n, op.k, op.bootOk);
    }
  }

  lemma DataConsistent(t: Transfer, n: Node, k: nat, bootOk: bool)
    requires t.Valid() && Consistent(t, n) && k < t.PacketNum()
    ensures var (n', reports, _) := HandleData(n, t.PacketAt(k), bootOk);
            && Consistent(t, n')
            && forall r | r in reports :: r.totalSize == |t.image| && (r.writtenSize == 0 || r.writtenSize == r.totalSize)
  {
    var c := Load(n);
    if (n.config.Some? || n.saved.Some?) && k * PACKET_SIZE + t.Size(k) <= |n.update| {
      AcceptConsistent(t, n.(config := Some(c)), c, k, bootOk);
    }
  }

  lemma AcceptConsistent(t: Transfer, n: Node, c: Status, k: nat, bootOk: bool)
    requires t.Valid() && Consistent(t, n) && n.config == Some(c) && k < t.PacketNum()
    requires k * PACKET_SIZE + t.Size(k) <= |n.update|
    ensures t.PacketAt(k).size <= |t.PacketAt(k).data|
    ensures var (n', reports, _) := Accept(n, c, t.PacketAt(k), bootOk);
            && Consistent(t, n')
            && forall r | r in reports :: r.totalSize == |t.image| && r.writtenSize == r.totalSize
  {
    AcceptSteps(t, n, c, k, bootOk);
  }

  /** Reports are never taken back. */
  lemma AccountsGrow(u: Setup, s: System, s': System)
    requires AccountsOk(u, s) && s'.root.unfinished == s.root.unfinished && s'.root.successed == s.root.successed
    requires s'.stopped == s.stopped && s.reports <= s'.reports
    ensures AccountsOk(u, s')
  {
    forall b | b in s.root.successed ensures exists r :: CompleteReport(s', b, r) {
      var r :| CompleteReport(s, b, r);
      assert CompleteReport(s', b, r);
    }
    forall b | b in s.stopped ensures exists r :: StopReport(s', b, r) {
      var r :| StopReport(s, b, r);
      assert StopReport(s', b, r);
    }
  }

  lemma NodeStepBasics(u: Setup, s: System, a: Addr, op: Op)
    requires u.t.Valid() && Basics(u, s) && Possible(u, s, NodeStep(a, op))
    ensures Basics(u, Take(u, s, NodeStep(a, op)))
  {
    OpConsistent(u.t, s.nodes[a], op);
    ReportsSelected(u.t, s.nodes[a], op);
    AccountsGrow(u, s, Take(u, s, NodeStep(a, op)));
  }

  lemma RootReadsAccounts(u: Setup, s: System, root: Root, r: SentReport)
    requires AccountsOk(u, s) && r in s.reports && Accounts(s.root, root, {r.msg})
    ensures AccountsOk(u, RootReads(s, root, r.msg))
  {
    var s' := RootReads(s, root, r.msg);
    AccountsMeaning(s.root, root, {r.msg});
    NoDupConcat(root.unfinished, root.successed);
    NoDupConcat(s.root.unfinished, s.root.successed);
    forall a | a in s'.root.successed ensures exists q :: CompleteReport(s', a, q) {
      if a in s.root.successed {
        var q :| CompleteReport(s, a, q);
        assert CompleteReport(s', a, q);
      } else {
        assert CompleteReport(s', a, r);
      }
    }
    forall a | a in s'.stopped ensures exists q :: StopReport(s', a, q) {
      if a in s.stopped {
        var q :| StopReport(s, a, q);
        assert StopReport(s', a, q);
      } else {
        assert StopReport(s', a, r);
      }
    }
  }

  /** Every step keeps the books, whatever has happened to the snapshots of the devices. */
  lemma TakeBasics(u: Setup, s: System, step: Step)
    requires u.t.Valid() && Basics(u, s) && Possible(u, s, step)
    ensures Basics(u, Take(u, s, step))
  {
    match step
    case NodeStep(a, op) => NodeStepBasics(u, s, a, op);
    case RootDrain(r) =>
      DrainStepAccounts(s.root, r.msg);
      RootReadsAccounts(u, s, DrainStep(s.root, r.msg), r);
    case RootResponse(r) =>
      ResponseStepAccounts(s.root, r.msg);
      RootReadsAccounts(u, s, ResponseStep(s.root, r.msg), r);
    case RootMid(r) =>
      MidStepAccounts(s.root, r.msg);
      RootReadsAccounts(u, s, MidStep(s.root, r.msg), r);
    case _ => AccountsGrow(u, s, Take(u, s, step));
  }

  lemma StartInv(u: Setup, s: System)
    requires u.t.Valid() && Start(u, s) && Sound(u, s)
    ensures SystemInv(u, s)
  {
    StartBasics(u, s);
  }

  lemma NodeStepInv(u: Setup, s: System, a: Addr, op: Op)
    requires u.t.Valid() && SystemInv(u, s) && Possible(u, s, NodeStep(a, op))
    ensures var s' := Take(u, s, NodeStep(a, op)); NodesOk(u, s') && NetworkOk(u.t, s') && Sound(u, s')
  {
    ApplyKeepsInv(u.t, s.nodes[a], op);
    RunningOk(u.t, s.nodes[a], op);
    NodeStepKeeps(u, s, a, op);
  }

  /** The others are not touched. */
  lemma NodeStepKeeps(u: Setup, s: System, a: Addr, op: Op)
    requires u.t.Valid() && NodesOk(u, s) && NetworkOk(u.t, s) && Sound(u, s) && Possible(u, s, NodeStep(a, op))
    requires var (n, reports) := Apply(u.t, s.nodes[a], op);
             && UpgradeInvariant.Inv(u.t, n) && (forall r | r in reports :: Truthful(u.t, n, r))
             && (n.running == s.nodes[a].running || Installed(u.t, n.running))
    ensures var s' := Take(u, s, NodeStep(a, op)); NodesOk(u, s') && NetworkOk(u.t, s') && Sound(u, s')
  {
    var (n, reports) := Apply(u.t, s.nodes[a], op);
    NodesStayOk(u, s, a, n);
    ReportsStayOk(u.t, s, a, n, reports);
  }

  lemma NodesStayOk(u: Setup, s: System, a: Addr, n: Node)
    requires u.t.Valid() && NodesOk(u, s) && Sound(u, s) && a in s.nodes && n.interval == s.nodes[a].interval
    requires UpgradeInvariant.Inv(u.t, n) && (n.running == s.nodes[a].running || Installed(u.t, n.running))
    ensures NodesOk(u, s.(nodes := s.nodes[a := n])) && Sound(u, s.(nodes := s.nodes[a := n]))
  {
  }

  lemma ReportsStayOk(t: Transfer, s: System, a: Addr, n: Node, reports: seq<Report>)
    requires t.Valid() && NetworkOk(t, s) && forall r | r in reports :: Truthful(t, n, r)
    ensures NetworkOk(t, s.(reports := s.reports + Sends(a, n, reports)))
  {
  }

  /** Only a reboot changes what a device runs, and then to a complete image or not at all. */
  lemma RunningOk(t: Transfer, n: Node, op: Op)
    requires t.Valid() && UpgradeInvariant.Inv(t, n)
    ensures Apply(t, n, op).0.running == n.running || Installed(t, Apply(t, n, op).0.running)
  {
  }

  lemma TakeInv(u: Setup, s: System, step: Step)
    requires u.t.Valid() && SystemInv(u, s) && Possible(u, s, step)
    ensures SystemInv(u, Take(u, s, step))
  {
    TakeBasics(u, s, step);
    if step.NodeStep? {
      NodeStepInv(u, s, step.a, step.op);
    }
  }

  // ---------- whole runs ----------

  /** A run, as the sequence of the states it goes through. */
  ghost predicate IsRun(u: Setup, states: seq<System>)
    requires u.t.Valid()
  {
    && states != [] && Start(u, states[0])
    && forall i | 0 < i < |states| :: Follows(u, states[i - 1], states[i])
  }

  ghost predicate Follows(u: Setup, s: System, s': System)
    requires u.t.Valid()
  {
    exists step :: Possible(u, s, step) && s' == Take(u, s, step)
  }

  lemma {:induction false} RunBasics(u: Setup, states: seq<System>, i: nat)
    requires u.t.Valid() && IsRun(u, states) && i < |states|
    ensures Basics(u, states[i])
  {
    if i == 0 {
      StartBasics(u, states[0]);
    } else {
      RunBasics(u, states, i - 1);
      assert Follows(u, states[i - 1], states[i]);
      var step :| Possible(u, states[i - 1], step) && states[i] == Take(u, states[i - 1], step);
      TakeBasics(u, states[i - 1], step);
    }
  }

  lemma {:induction false} RunInv(u: Setup, states: seq<System>, i: nat)
    requires u.t.Valid() && IsRun(u, states) && Sound(u, states[0]) && i < |states|
    ensures SystemInv(u, states[i])
  {
    if i == 0 {
      StartInv(u, states[0]);
    } else {
      RunInv(u, states, i - 1);
      assert Follows(u, states[i - 1], states[i]);
      var step :| Possible(u, states[i - 1], step) && states[i] == Take(u, states[i - 1], step);
      TakeInv(u, states[i - 1], step);
    }
  }

  /** The targets are at all times, also when restarts are harmful, the disjoint union of the
      unfinished, the successful and those whose own report said that they had stopped. */
  lemma TargetsAccountedFor(u: Setup, states: seq<System>, i: nat)
    requires u.t.Valid() && IsRun(u, states) && i < |states|
    ensures var s := states[i];
            && (forall a :: a in u.targets <==> a in s.root.unfinished || a in s.root.successed || a in s.stopped)
            && (forall a | a in s.root.unfinished :: a !in s.root.successed && a !in s.stopped)
            && (forall a | a in s.root.successed :: a !in s.stopped)
            && NoDup(s.root.unfinished) && NoDup(s.root.successed)
            && (forall a | a in s.root.successed :: exists r :: CompleteReport(s, a, r))
            && forall a | a in s.stopped :: exists r :: StopReport(s, a, r)
  {
    RunBasics(u, states, i);
    NoDupConcat(states[i].root.unfinished, states[i].root.successed);
  }

  /** Whoever the root counts as successful had selected the new partition for booting when it sent
      the report that says so, also when restarts are harmful. */
  lemma SuccessMeansSelected(u: Setup, states: seq<System>, i: nat, a: Addr)
    requires u.t.Valid() && IsRun(u, states) && i < |states| && a in states[i].root.successed
    ensures exists r :: CompleteReport(states[i], a, r) && r.selected
  {
    RunBasics(u, states, i);
    var r :| CompleteReport(states[i], a, r);
  }

  /** Every report in any run is fit to be read: the bitmap is there when the root looks at it. */
  lemma ReportsInTransit(u: Setup, states: seq<System>, i: nat, r: SentReport)
    requires u.t.Valid() && IsRun(u, states) && i < |states| && r in states[i].reports
    ensures r.msg.Readable() && r.msg.report.totalSize == |u.t.image|
  {
    RunBasics(u, states, i);
  }

  /** Where restarts leave count and bitmap in step, a report that is not complete shows a packet
      that is missing. Elsewhere it need not, see `UpgradeDrift.StuckDevice`. */
  lemma ReportsShowGaps(u: Setup, states: seq<System>, i: nat, r: SentReport)
    requires u.t.Valid() && IsRun(u, states) && Sound(u, states[0]) && i < |states| && r in states[i].reports
    ensures !r.msg.Complete() ==> exists k: nat :: k < u.t.PacketNum() && !r.msg.Has(k)
  {
    RunInv(u, states, i);
    if !r.msg.Complete() {
      var k := ReportShowsGap(u.t, r.msg);
    }
  }
}
