/** What the whole upgrade is for: whoever the root counts as successful has got the image, and
    nothing else is ever booted. Restarts included, unless the count can be made up. */
module UpgradeSafety {
  import opened Prelude
  import opened UpgradeNode
  import opened UpgradeInvariant
  import opened UpgradeRuns
  import opened UpgradeResume
  import opened UpgradeLimits
  import opened UpgradeRoot
  import opened UpgradeAccounting
  import opened UpgradeSystem

  /** Restarts do no harm, see `UpgradeTraces.SystemSafeIff`. */
  ghost predicate Harmless(u: Setup, s: System) {
    u.reboots ==> forall a | a in s.nodes :: !CanDrift(|u.t.image|, s.nodes[a].interval)
  }

  // ---------- one device ----------

  /** Either count and bitmap stay in step, or the books show how far apart they are. */
  ghost predicate Sane(t: Transfer, n: Node)
    requires t.Valid()
  {
    WellFormed(n) && if Resumable(t, n.interval) then UpgradeInvariant.Inv(t, n) else Small(t) && Safe(t, n)
  }

  lemma InitialSane(t: Transfer, n: Node)
    requires t.Valid() && Initial(t, n) && !CanDrift(|t.image|, n.interval)
    ensures Sane(t, n)
  {
    if Resumable(t, n.interval) {
      InitialInv(t, n);
    } else {
      SmallOrDrifts(t, n.interval);
      InitialSafe(t, n);
    }
  }

  lemma ApplySane(t: Transfer, n: Node, op: Op)
    requires t.Valid() && Sane(t, n) && !CanDrift(|t.image|, n.interval)
    ensures var (n', reports) := Apply(t, n, op); Sane(t, n') && Honest(t, n', reports)
  {
    if Resumable(t, n.interval) {
      ApplyKeepsInv(t, n, op);
    } else {
      ApplySafe(t, n, op);
    }
  }

  /** Only a reboot changes what a device runs, and then to a complete image or not at all. */
  lemma RunningSane(t: Transfer, n: Node, op: Op)
    requires t.Valid() && Sane(t, n)
    ensures Apply(t, n, op).0.running == n.running || Installed(t, Apply(t, n, op).0.running)
  {
    SaneBoots(t, n);
  }

  lemma SaneBoots(t: Transfer, n: Node)
    requires t.Valid() && Sane(t, n)
    ensures n.bootsUpdate ==> Installed(t, n.update)
  {
    if !Resumable(t, n.interval) {
      SafeBoots(t, n);
    }
  }

  // ---------- the system ----------

  ghost predicate NodeTrusted(u: Setup, s: System, a: Addr)
    requires u.t.Valid() && a in s.nodes && a in u.factory
  {
    && Sane(u.t, s.nodes[a]) && !CanDrift(|u.t.image|, s.nodes[a].interval)
    && (s.nodes[a].running == u.factory[a] || Installed(u.t, s.nodes[a].running))
  }

  ghost predicate SafetyInv(u: Setup, s: System)
    requires u.t.Valid()
  {
    && Basics(u, s) && s.nodes.Keys == u.factory.Keys
    && (forall a | a in s.nodes :: NodeTrusted(u, s, a))
    && forall r | r in s.reports :: r.msg.Complete() ==> Installed(u.t, r.partition)
  }

  lemma StartSafe(u: Setup, s: System)
    requires u.t.Valid() && Start(u, s) && u.reboots && Harmless(u, s)
    ensures SafetyInv(u, s)
  {
    StartBasics(u, s);
    forall a | a in s.nodes ensures NodeTrusted(u, s, a) {
      InitialSane(u.t, s.nodes[a]);
    }
  }

  lemma TakeSafe(u: Setup, s: System, step: Step)
    requires u.t.Valid() && SafetyInv(u, s) && Possible(u, s, step)
    ensures SafetyInv(u, UpgradeSystem.Take(u, s, step))
  {
    TakeBasics(u, s, step);
    if step.NodeStep? {
      ApplySane(u.t, s.nodes[step.a], step.op);
      RunningSane(u.t, s.nodes[step.a], step.op);
      NodeStepSafe(u, s, step.a, step.op);
    }
  }

  lemma NodeStepSafe(u: Setup, s: System, a: Addr, op: Op)
    requires u.t.Valid() && SafetyInv(u, s) && Possible(u, s, NodeStep(a, op))
    requires var (n, reports) := Apply(u.t, s.nodes[a], op);
             && Sane(u.t, n) && Honest(u.t, n, reports)
             && (n.running == s.nodes[a].running || Installed(u.t, n.running))
    ensures var s' := UpgradeSystem.Take(u, s, NodeStep(a, op));
            && s'.nodes.Keys == u.factory.Keys && (forall b | b in s'.nodes :: NodeTrusted(u, s', b))
            && forall r | r in s'.reports :: r.msg.Complete() ==> Installed(u.t, r.partition)
  {
    var s' := UpgradeSystem.Take(u, s, NodeStep(a, op));
    forall b | b in s'.nodes ensures NodeTrusted(u, s', b) {
      assert NodeTrusted(u, s, b);
    }
  }

  lemma {:induction false} RunSafe(u: Setup, states: seq<System>, i: nat)
    requires u.t.Valid() && IsRun(u, states) && u.reboots && Harmless(u, states[0]) && i < |states|
    ensures SafetyInv(u, states[i])
  {
    if i == 0 {
      StartSafe(u, states[0]);
    } else {
      RunSafe(u, states, i - 1);
      assert Follows(u, states[i - 1], states[i]);
      var step :| Possible(u, states[i - 1], step) && states[i] == UpgradeSystem.Take(u, states[i - 1], step);
      TakeSafe(u, states[i - 1], step);
    }
  }

  // ---------- safety ----------

  /** End-to-end safety: whoever the root counts as successful sent a report while its update
      partition held exactly the root's image and was selected for booting. */
  lemma SuccessMeansInstalled(u: Setup, states: seq<System>, i: nat, a: Addr)
    requires u.t.Valid() && IsRun(u, states) && Harmless(u, states[0]) && i < |states| && a in states[i].root.successed
    ensures exists r ::
              && r in states[i].reports && r.msg.src == a && r.selected
              && |u.t.image| <= |r.partition| && r.partition[..|u.t.image|] == u.t.image
  {
    if u.reboots {
      RunSafe(u, states, i);
    } else {
      RunInv(u, states, i);
    }
    SuccessMeansSelected(u, states, i, a);
    var r :| CompleteReport(states[i], a, r) && r.selected;
    assert Installed(u.t, r.partition);
  }

  /** Power may fail at any time: no device ever runs anything but what it ran before or the
      complete image, and the boot selection never points to anything else. */
  lemma OnlyCompleteImagesBoot(u: Setup, states: seq<System>, i: nat, a: Addr)
    requires u.t.Valid() && IsRun(u, states) && Harmless(u, states[0]) && i < |states| && a in states[i].nodes
    ensures a in u.factory
    ensures var n := states[i].nodes[a];
            && (n.running == u.factory[a] || Installed(u.t, n.running))
            && (n.bootsUpdate ==> Installed(u.t, n.update))
  {
    if u.reboots {
      RunSafe(u, states, i);
      assert NodeTrusted(u, states[i], a);
      SaneBoots(u.t, states[i].nodes[a]);
    } else {
      RunInv(u, states, i);
    }
  }
}
