/** Progress of a whole upgrade: as long as nobody stops or reboots, the number of pairs of an
    unfinished device and a packet it lacks never rises, and each new packet that an unfinished
    device accepts lowers it by one. */
module UpgradeProgress {
  import opened Prelude
  import opened Bitmap
  import opened Addresses
  import opened UpgradeNode
  import opened UpgradeInvariant
  import opened UpgradeRuns
  import opened UpgradeRoot
  import opened UpgradeAccounting
  import opened UpgradeSystem

  // ---------- one device ----------

  /** Neither stopped nor restarted since the upgrade began. */
  ghost predicate SteadyNode(t: Transfer, n: Node)
    requires t.Valid()
  {
    && UpgradeInvariant.Inv(t, n)
    && (n.config.None? ==> n.saved.None?)
    && (n.config.Some? ==> Downloading(t, n))
  }

  /** The number of packets that a device lacks: all of them before the upgrade has begun. */
  ghost function Lacks(t: Transfer, n: Node): nat
    requires t.Valid() && WellFormed(n)
  {
    if n.config.None? then t.PacketNum() else Missing(n.config.value.bitmap, t.PacketNum())
  }

  /** By how much a step lowers that number: by one for a new packet; the root's own first answer
      makes it complete at once. */
  ghost function Gain(t: Transfer, n: Node, op: Op): nat
    requires t.Valid() && WellFormed(n)
  {
    if op.Data? && op.k < t.PacketNum() && n.config.Some? && !Has(n, op.k) then 1
    else if op.Ask? && n.isRoot && n.config.None? then t.PacketNum()
    else 0
  }

  lemma {:induction false} MissingZeros(n: nat, k: nat)
    requires k <= 8 * n
    ensures Missing(Zeros(n), k) == k
  {
    if k > 0 {
      MissingZeros(n, k - 1);
    }
  }

  lemma LacksNothing(t: Transfer, n: Node)
    requires t.Valid() && SteadyNode(t, n)
    ensures Lacks(t, n) == 0 <==> Complete(t, n)
    ensures n.config.Some? && n.config.value.writtenSize == |t.image| <==> Complete(t, n)
  {
    if n.config.Some? {
      MissingZero(n.config.value.bitmap, t.PacketNum());
      CompleteIffAllBits(t, n.config.value.bitmap);
      assert forall k: nat | k < t.PacketNum() :: Has(n, k) <==> GetBit(n.config.value.bitmap, k);
      CompleteIffHasAll(t, n);
    }
  }

  /** The first request. */
  lemma FirstAsk(t: Transfer, n: Node)
    requires t.Valid() && SteadyNode(t, n) && n.config.None?
    ensures var n' := Apply(t, n, Ask).0;
            SteadyNode(t, n') && Lacks(t, n') == if n.isRoot then 0 else t.PacketNum()
  {
    ApplyKeepsInv(t, n, Ask);
    var n' := Apply(t, n, Ask).0;
    MissingZeros(BITMAP_SIZE, t.PacketNum());
    LacksNothing(t, n');
  }

  lemma NodeProgress(t: Transfer, n: Node, op: Op)
    requires t.Valid() && SteadyNode(t, n) && Steady(op)
    ensures var n' := Apply(t, n, op).0;
            SteadyNode(t, n') && Lacks(t, n') == Lacks(t, n) - Gain(t, n, op)
  {
    ApplyKeepsInv(t, n, op);
    if n.config.Some? {
      ProgressMeasure(t, n, op);
    } else if op.Ask? {
      FirstAsk(t, n);
    }
  }

  /** Complete devices stay complete, and only they say that they are. */
  lemma NodeReports(t: Transfer, n: Node, op: Op)
    requires t.Valid() && SteadyNode(t, n) && Steady(op)
    ensures var (n', reports) := Apply(t, n, op);
            && SteadyNode(t, n') && (Complete(t, n) ==> Complete(t, n'))
            && forall r | r in reports ::
                 r.errorCode != MDF_ERR_MUPGRADE_STOP && (r.writtenSize == r.totalSize ==> Complete(t, n'))
  {
    NodeProgress(t, n, op);
    var n' := Apply(t, n, op).0;
    LacksNothing(t, n);
    LacksNothing(t, n');
    ReportedSize(t, n, op);
  }

  lemma ReportedSize(t: Transfer, n: Node, op: Op)
    requires t.Valid() && SteadyNode(t, n) && Steady(op)
    ensures var (n', reports) := Apply(t, n, op);
            forall r | r in reports ::
              && r.errorCode != MDF_ERR_MUPGRADE_STOP && n'.config.Some?
              && r.writtenSize == n'.config.value.writtenSize && r.totalSize == |t.image|
  {
    if op.Data? && op.k < t.PacketNum() && n.config.Some? && !Has(n, op.k) {
      t.SliceBounds(op.k);
      AcceptSteps(t, n, n.config.value, op.k, op.bootOk);
    }
  }

  // ---------- the system ----------

  ghost predicate SteadyStep(step: Step) {
    step.NodeStep? ==> Steady(step.op)
  }

  /** Restarts do not matter where there are none. */
  function Still(u: Setup): (u': Setup) {
    u.(reboots := false)
  }

  ghost predicate SteadyInv(u: Setup, s: System)
    requires u.t.Valid()
  {
    && SystemInv(Still(u), s)
    && (forall a | a in s.nodes :: SteadyNode(u.t, s.nodes[a]))
    && forall r | r in s.reports ::
         && r.msg.src in s.nodes && !r.msg.Stopped()
         && (r.msg.Complete() ==> Complete(u.t, s.nodes[r.msg.src]))
  }

  ghost function LacksAt(t: Transfer, nodes: map<Addr, Node>, a: Addr): nat
    requires t.Valid()
  {
    if a in nodes && WellFormed(nodes[a]) then Lacks(t, nodes[a]) else t.PacketNum()
  }

  /** The number of pairs of a device on the list and a packet that it lacks. */
  ghost function Pairs(t: Transfer, nodes: map<Addr, Node>, list: seq<Addr>): nat
    requires t.Valid()
  {
    if list == [] then 0 else LacksAt(t, nodes, list[0]) + Pairs(t, nodes, list[1..])
  }

  ghost function PairsLeft(u: Setup, s: System): nat
    requires u.t.Valid()
  {
    Pairs(u.t, s.nodes, s.root.unfinished)
  }

  /** What a step takes off: only steps of unfinished devices count. */
  ghost function StepGain(u: Setup, s: System, step: Step): nat
    requires u.t.Valid() && Possible(u, s, step)
  {
    if step.NodeStep? && step.a in s.root.unfinished then Gain(u.t, s.nodes[step.a], step.op) else 0
  }

  lemma {:induction false} PairsSame(t: Transfer, nodes: map<Addr, Node>, nodes': map<Addr, Node>, list: seq<Addr>)
    requires t.Valid() && forall a | a in list :: LacksAt(t, nodes', a) == LacksAt(t, nodes, a)
    ensures Pairs(t, nodes', list) == Pairs(t, nodes, list)
  {
    if list != [] {
      assert list[0] in list;
      PairsSame(t, nodes, nodes', list[1..]);
    }
  }

  /** One device of the list changes. */
  lemma {:induction false} PairsChange(t: Transfer, nodes: map<Addr, Node>, nodes': map<Addr, Node>, list: seq<Addr>, a: Addr)
    requires t.Valid() && NoDup(list) && a in list
    requires forall b | b != a :: LacksAt(t, nodes', b) == LacksAt(t, nodes, b)
    ensures Pairs(t, nodes', list) - LacksAt(t, nodes', a) == Pairs(t, nodes, list) - LacksAt(t, nodes, a)
  {
    assert list == [list[0]] + list[1..];
    NoDupConcat([list[0]], list[1..]);
    assert list[0] in [list[0]];
    if list[0] == a {
      PairsSame(t, nodes, nodes', list[1..]);
    } else {
      PairsChange(t, nodes, nodes', list[1..], a);
    }
  }

  /** Taking a device off the list takes off what it lacks. */
  lemma {:induction false} PairsRemove(t: Transfer, nodes: map<Addr, Node>, list: seq<Addr>, a: Addr)
    requires t.Valid()
    ensures Pairs(t, nodes, RemoveFirst(list, a)) == Pairs(t, nodes, list) - if a in list then LacksAt(t, nodes, a) else 0
  {
    if list != [] {
      assert a in list <==> a == list[0] || a in list[1..];
      if list[0] != a {
        PairsRemove(t, nodes, list[1..], a);
        assert ([list[0]] + RemoveFirst(list[1..], a))[1..] == RemoveFirst(list[1..], a);
      }
    }
  }

  lemma {:induction false} PairsZero(t: Transfer, nodes: map<Addr, Node>, list: seq<Addr>)
    requires t.Valid()
    ensures Pairs(t, nodes, list) == 0 <==> forall a | a in list :: LacksAt(t, nodes, a) == 0
  {
    if list != [] {
      PairsZero(t, nodes, list[1..]);
      assert list[0] in list;
    }
  }

  // ---------- every step ----------

  lemma SteadyTake(u: Setup, s: System, step: Step)
    requires u.t.Valid() && SystemInv(Still(u), s) && Possible(u, s, step) && SteadyStep(step)
    ensures SystemInv(Still(u), Take(u, s, step))
  {
    assert Take(Still(u), s, step) == Take(u, s, step);
    TakeInv(Still(u), s, step);
  }

  lemma DeviceProgress(u: Setup, s: System, a: Addr, op: Op)
    requires u.t.Valid() && SteadyInv(u, s) && Possible(u, s, NodeStep(a, op)) && Steady(op)
    ensures var s' := Take(u, s, NodeStep(a, op));
            SteadyInv(u, s') && PairsLeft(u, s') == PairsLeft(u, s) - StepGain(u, s, NodeStep(a, op))
  {
    DeviceSteady(u, s, a, op);
    NodeProgress(u.t, s.nodes[a], op);
    DevicePairs(u, s, a, Apply(u.t, s.nodes[a], op).0);
  }

  lemma DeviceSteady(u: Setup, s: System, a: Addr, op: Op)
    requires u.t.Valid() && SteadyInv(u, s) && Possible(u, s, NodeStep(a, op)) && Steady(op)
    ensures SteadyInv(u, Take(u, s, NodeStep(a, op)))
  {
    SteadyTake(u, s, NodeStep(a, op));
    NodeReports(u.t, s.nodes[a], op);
  }

  lemma DevicePairs(u: Setup, s: System, a: Addr, n: Node)
    requires u.t.Valid() && NoDup(s.root.unfinished + s.root.successed) && a in s.nodes
    ensures Pairs(u.t, s.nodes[a := n], s.root.unfinished) ==
            PairsLeft(u, s)
            + if a in s.root.unfinished then LacksAt(u.t, s.nodes[a := n], a) - LacksAt(u.t, s.nodes, a) else 0
  {
    if a in s.root.unfinished {
      NoDupConcat(s.root.unfinished, s.root.successed);
      PairsChange(u.t, s.nodes, s.nodes[a := n], s.root.unfinished, a);
    } else {
      PairsSame(u.t, s.nodes, s.nodes[a := n], s.root.unfinished);
    }
  }

  /** The root takes devices off its list only when they lack nothing. */
  lemma RootProgress(u: Setup, s: System, root: Root, r: SentReport)
    requires u.t.Valid() && SteadyInv(u, s) && r in s.reports
    requires root.unfinished == s.root.unfinished
             || (root.unfinished == RemoveFirst(s.root.unfinished, r.msg.src) && r.msg.Complete())
    ensures Pairs(u.t, s.nodes, root.unfinished) == PairsLeft(u, s)
  {
    if r.msg.Complete() {
      PairsRemove(u.t, s.nodes, s.root.unfinished, r.msg.src);
      LacksNothing(u.t, s.nodes[r.msg.src]);
    }
  }

  /** What happens to the unfinished list when the root reads a message that says no stop. */
  lemma RootTakesOff(r: Root, m: Msg)
    requires !m.Stopped() && 0 < m.report.totalSize
    ensures DrainStep(r, m).unfinished == r.unfinished
            || (DrainStep(r, m).unfinished == RemoveFirst(r.unfinished, m.src) && m.Complete())
    ensures MidStep(r, m).unfinished == r.unfinished
    ensures m.Readable() && |r.progress| == BITMAP_SIZE ==>
              ResponseStep(r, m).unfinished == r.unfinished
              || (ResponseStep(r, m).unfinished == RemoveFirst(r.unfinished, m.src) && m.Complete())
  {
  }

  /** In every step without a stop or a reboot the number of pairs falls by exactly what the step
      gains: one for each new packet that an unfinished device accepts. */
  lemma StepProgress(u: Setup, s: System, step: Step)
    requires u.t.Valid() && SteadyInv(u, s) && Possible(u, s, step) && SteadyStep(step)
    ensures SteadyInv(u, Take(u, s, step))
    ensures PairsLeft(u, Take(u, s, step)) == PairsLeft(u, s) - StepGain(u, s, step)
  {
    match step
    case NodeStep(a, op) => DeviceProgress(u, s, a, op);
    case RootDrain(r) =>
      SteadyTake(u, s, step);
      RootTakesOff(s.root, r.msg);
      RootProgress(u, s, DrainStep(s.root, r.msg), r);
    case RootResponse(r) =>
      SteadyTake(u, s, step);
      RootTakesOff(s.root, r.msg);
      RootProgress(u, s, ResponseStep(s.root, r.msg), r);
    case RootMid(r) =>
      SteadyTake(u, s, step);
      RootTakesOff(s.root, r.msg);
    case _ => SteadyTake(u, s, step);
  }

  // ---------- whole runs ----------

  ghost predicate SteadyFollows(u: Setup, s: System, s': System)
    requires u.t.Valid()
  {
    exists step :: Possible(u, s, step) && SteadyStep(step) && s' == Take(u, s, step)
  }

  /** A run in which nobody stops or reboots and the boot selection always works. */
  ghost predicate IsSteadyRun(u: Setup, states: seq<System>)
    requires u.t.Valid()
  {
    && states != [] && Start(u, states[0])
    && forall i | 0 < i < |states| :: SteadyFollows(u, states[i - 1], states[i])
  }

  lemma {:induction false} SteadyRunInv(u: Setup, states: seq<System>, i: nat)
    requires u.t.Valid() && IsSteadyRun(u, states) && i < |states|
    ensures SteadyInv(u, states[i])
  {
    if i == 0 {
      StartInv(Still(u), states[0]);
    } else {
      SteadyRunInv(u, states, i - 1);
      assert SteadyFollows(u, states[i - 1], states[i]);
      var step :| Possible(u, states[i - 1], step) && SteadyStep(step) && states[i] == Take(u, states[i - 1], step);
      StepProgress(u, states[i - 1], step);
    }
  }

  lemma NoPairsLeft(u: Setup, s: System)
    requires u.t.Valid() && SteadyInv(u, s)
    ensures PairsLeft(u, s) == 0 <==> forall a | a in s.root.unfinished :: a in s.nodes && Complete(u.t, s.nodes[a])
  {
    PairsZero(u.t, s.nodes, s.root.unfinished);
    forall a | a in s.root.unfinished
      ensures LacksAt(u.t, s.nodes, a) == 0 <==> a in s.nodes && Complete(u.t, s.nodes[a])
    {
      AbsentLacksAll(u.t);
      if a in s.nodes {
        LacksNothing(u.t, s.nodes[a]);
      }
    }
  }

  lemma AbsentLacksAll(t: Transfer)
    requires t.Valid()
    ensures t.PacketNum() > 0
  {
  }

  lemma StepDown(u: Setup, states: seq<System>, i: nat)
    requires u.t.Valid() && IsSteadyRun(u, states) && 0 < i < |states|
    ensures PairsLeft(u, states[i]) <= PairsLeft(u, states[i - 1])
  {
    SteadyRunInv(u, states, i - 1);
    assert SteadyFollows(u, states[i - 1], states[i]);
    var step :| Possible(u, states[i - 1], step) && SteadyStep(step) && states[i] == Take(u, states[i - 1], step);
    StepProgress(u, states[i - 1], step);
  }

  lemma {:induction false} NeverRises(counts: seq<nat>, i: nat, j: nat)
    requires i <= j < |counts| && forall k | 0 < k < |counts| :: counts[k] <= counts[k - 1]
    ensures counts[j] <= counts[i]
    decreases j - i
  {
    if i < j {
      NeverRises(counts, i, j - 1);
    }
  }

  /** Upgrade progress over whole runs: the number of pairs never rises, and it is zero exactly
      when all unfinished devices are complete. */
  lemma RunProgress(u: Setup, states: seq<System>, i: nat, j: nat)
    requires u.t.Valid() && IsSteadyRun(u, states) && i <= j < |states|
    ensures PairsLeft(u, states[j]) <= PairsLeft(u, states[i])
    ensures PairsLeft(u, states[j]) == 0 <==>
              forall a | a in states[j].root.unfinished :: a in states[j].nodes && Complete(u.t, states[j].nodes[a])
  {
    var counts := seq(|states|, k requires 0 <= k < |states| => PairsLeft(u, states[k]));
    forall k | 0 < k < |counts| ensures counts[k] <= counts[k - 1] {
      StepDown(u, states, k);
    }
    NeverRises(counts, i, j);
    SteadyRunInv(u, states, j);
    NoPairsLeft(u, states[j]);
  }

  /** Devices on the successed list have the complete image and keep it. */
  lemma SuccessedAreComplete(u: Setup, states: seq<System>, i: nat, a: Addr)
    requires u.t.Valid() && IsSteadyRun(u, states) && i < |states| && a in states[i].root.successed
    ensures a in states[i].nodes && Complete(u.t, states[i].nodes[a])
  {
    SteadyRunInv(u, states, i);
    var r :| CompleteReport(states[i], a, r);
  }
}
