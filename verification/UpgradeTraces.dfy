/** Runs of the system as lists of steps. What the root does in such a run is what its code does,
    whatever the devices do in between. Where restarts are not harmless there is a run that puts a
    device on the list of successes although no report was sent with the image in place. */
module UpgradeTraces {
  import opened Prelude
  import opened Bitmap
  import opened UpgradeNode
  import opened UpgradeInvariant
  import opened UpgradeRuns
  import opened UpgradeResume
  import opened UpgradeLimits
  import opened UpgradeDrift
  import opened UpgradeRoot
  import opened UpgradeAccounting
  import opened UpgradeCoverage
  import opened UpgradeSystem
  import opened UpgradeSafety

  // ---------- lists of steps ----------

  ghost predicate CanTake(u: Setup, s: System, steps: seq<Step>)
    requires u.t.Valid()
    decreases |steps|
  {
    steps == [] || (Possible(u, s, steps[0]) && CanTake(u, UpgradeSystem.Take(u, s, steps[0]), steps[1..]))
  }

  ghost function Exec(u: Setup, s: System, steps: seq<Step>): System
    requires u.t.Valid() && CanTake(u, s, steps)
    decreases |steps|
  {
    if steps == [] then s else Exec(u, UpgradeSystem.Take(u, s, steps[0]), steps[1..])
  }

  lemma {:induction false} ExecConcat(u: Setup, s: System, a: seq<Step>, b: seq<Step>)
    requires u.t.Valid() && CanTake(u, s, a) && CanTake(u, Exec(u, s, a), b)
    ensures CanTake(u, s, a + b) && Exec(u, s, a + b) == Exec(u, Exec(u, s, a), b)
    decreases |a|
  {
    if a == [] {
      assert a + b == b;
    } else {
      assert (a + b)[0] == a[0] && (a + b)[1..] == a[1..] + b;
      ExecConcat(u, UpgradeSystem.Take(u, s, a[0]), a[1..], b);
    }
  }

  lemma ExecOne(u: Setup, s: System, step: Step, steps: seq<Step>)
    requires u.t.Valid() && Possible(u, s, step) && CanTake(u, UpgradeSystem.Take(u, s, step), steps)
    ensures CanTake(u, s, [step] + steps)
    ensures Exec(u, s, [step] + steps) == Exec(u, UpgradeSystem.Take(u, s, step), steps)
  {
    assert ([step] + steps)[1..] == steps;
  }

  /** A list of steps continues a run. */
  lemma {:induction false} ExecIsRun(u: Setup, states: seq<System>, steps: seq<Step>) returns (more: seq<System>)
    requires u.t.Valid() && IsRun(u, states) && CanTake(u, states[|states| - 1], steps)
    ensures IsRun(u, more) && states <= more && more[|more| - 1] == Exec(u, states[|states| - 1], steps)
    decreases |steps|
  {
    more := states;
    if steps != [] {
      var s := states[|states| - 1];
      var s' := UpgradeSystem.Take(u, s, steps[0]);
      assert Follows(u, s, s');
      more := ExecIsRun(u, states + [s'], steps[1..]);
    }
  }

  // ---------- what the root does ----------

  /** What the root does in one step: it begins a status request, reads a message from its queue
      before the request, sends the request, reads an answer, finds a message between packets, or
      sends a packet. */
  datatype Action =
    | Begin
    | Drained(m: Msg)
    | Requested
    | Answered(m: Msg)
    | Found(m: Msg)
    | PacketSent(k: nat)

  function ActionOf(step: Step): Option<Action> {
    match step
    case NodeStep(_, _) => None
    case RootStart => Some(Begin)
    case RootDrain(r) => Some(Drained(r.msg))
    case RootAsk => Some(Requested)
    case RootResponse(r) => Some(Answered(r.msg))
    case RootMid(r) => Some(Found(r.msg))
    case RootSend(k) => Some(PacketSent(k))
  }

  /** What the root does in a run, without what the devices do in between. */
  function Actions(steps: seq<Step>): seq<Action> {
    if steps == [] then []
    else (if ActionOf(steps[0]).Some? then [ActionOf(steps[0]).value] else []) + Actions(steps[1..])
  }

  function Do(r: Root, a: Action): Root {
    match a
    case Begin => r.(requested := [])
    case Drained(m) => DrainStep(r, m)
    case Requested => BeginRequest(r)
    case Answered(m) => if m.Readable() && |r.progress| == BITMAP_SIZE then ResponseStep(r, m) else r
    case Found(m) => MidStep(r, m)
    case PacketSent(_) => r
  }

  function DoAll(r: Root, actions: seq<Action>): Root
    decreases |actions|
  {
    if actions == [] then r else DoAll(Do(r, actions[0]), actions[1..])
  }

  function PacketsIn(actions: seq<Action>): set<nat> {
    set i | 0 <= i < |actions| && actions[i].PacketSent? :: actions[i].k
  }

  lemma PacketsInConcat(a: seq<Action>, b: seq<Action>)
    ensures PacketsIn(a + b) == PacketsIn(a) + PacketsIn(b)
  {
    forall k | k in PacketsIn(b) ensures k in PacketsIn(a + b) {
      var i :| 0 <= i < |b| && b[i].PacketSent? && b[i].k == k;
      assert (a + b)[|a| + i] == b[i];
    }
    forall k | k in PacketsIn(a) ensures k in PacketsIn(a + b) {
      var i :| 0 <= i < |a| && a[i].PacketSent? && a[i].k == k;
      assert (a + b)[i] == a[i];
    }
  }

  lemma {:induction false} DoAllConcat(r: Root, a: seq<Action>, b: seq<Action>)
    ensures DoAll(r, a + b) == DoAll(DoAll(r, a), b)
    decreases |a|
  {
    if a == [] {
      assert a + b == b;
    } else {
      assert (a + b)[0] == a[0] && (a + b)[1..] == a[1..] + b;
      DoAllConcat(Do(r, a[0]), a[1..], b);
    }
  }

  /** Devices change nothing at the root: it ends up where its own actions lead, and the packets
      on the network are those it has sent. */
  lemma {:induction false} ExecIsActions(u: Setup, s: System, steps: seq<Step>)
    requires u.t.Valid() && CanTake(u, s, steps)
    ensures Exec(u, s, steps).root == DoAll(s.root, Actions(steps))
    ensures Exec(u, s, steps).packets == s.packets + PacketsIn(Actions(steps))
    decreases |steps|
  {
    if steps != [] {
      var s' := UpgradeSystem.Take(u, s, steps[0]);
      ExecIsActions(u, s', steps[1..]);
      var first := if ActionOf(steps[0]).Some? then [ActionOf(steps[0]).value] else [];
      FirstAction(u, s, steps[0], first);
      DoAllConcat(s.root, first, Actions(steps[1..]));
      PacketsInConcat(first, Actions(steps[1..]));
    }
  }

  lemma FirstAction(u: Setup, s: System, step: Step, first: seq<Action>)
    requires u.t.Valid() && Possible(u, s, step)
    requires first == if ActionOf(step).Some? then [ActionOf(step).value] else []
    ensures UpgradeSystem.Take(u, s, step).root == DoAll(s.root, first)
    ensures UpgradeSystem.Take(u, s, step).packets == s.packets + PacketsIn(first)
  {
    assert first == [] ==> PacketsIn(first) == {};
    assert first != [] ==> first[1..] == [] && DoAll(s.root, first) == DoAll(Do(s.root, first[0]), []);
    if step.RootSend? {
      assert first[0] == PacketSent(step.k);
      assert PacketsIn(first) == {step.k};
    }
  }

  // ---------- the actions of the root's code ----------

  function DrainActions(r: Root, ms: seq<Msg>): seq<Action>
    decreases |ms|
  {
    if ms == [] || r.unfinished == [] then [] else [Drained(ms[0])] + DrainActions(DrainStep(r, ms[0]), ms[1..])
  }

  function CollectActions(r: Root, ms: seq<Msg>): seq<Action>
    requires AllReadable(ms) && |r.progress| == BITMAP_SIZE
    decreases |ms|
  {
    if ms == [] || r.pending == [] then [] else [Answered(ms[0])] + CollectActions(ResponseStep(r, ms[0]), ms[1..])
  }

  function AttemptsActions(r: Root, attempts: seq<seq<Msg>>): seq<Action>
    requires (forall ms | ms in attempts :: AllReadable(ms)) && |r.progress| == BITMAP_SIZE
    decreases |attempts|
  {
    if attempts == [] || r.pending == [] then []
    else CollectActions(r, attempts[0]) + AttemptsActions(Collect(r, attempts[0]), attempts[1..])
  }

  /** mupgrade_request_status */
  function RequestActions(r: Root, drained: seq<Msg>, attempts: seq<seq<Msg>>): seq<Action>
    requires forall ms | ms in attempts :: AllReadable(ms)
  {
    var r0 := r.(requested := []);
    var d := Drain(r0, drained);
    [Begin] + DrainActions(r0, drained)
    + if d.unfinished == [] then [] else [Requested] + AttemptsActions(BeginRequest(d), attempts)
  }

  function MidActions(r: Root, ms: seq<Msg>): seq<Action>
    decreases |ms|
  {
    if ms == [] then []
    else
      var m := ms[0];
      var s := MidStep(r, m);
      var skips := m.report.writtenSize == 0 && m.Complete() && (m.src !in r.unfinished || m.src !in r.requested);
      [Found(m)] + if !skips && s.unfinished == [] then [] else MidActions(s, ms[1..])
  }

  function PacketActions(r: Root, round: Round, k: nat): seq<Action>
    requires |r.progress| == BITMAP_SIZE && k < PACKET_NUM
  {
    if GetBit(r.progress, k) || round.unreadable == Some(k) then []
    else MidActions(r, round.Mid(k)) + if DrainMid(r, round.Mid(k)).1 then [] else [PacketSent(k)]
  }

  /** The packet loop from packet k on, after `done`. */
  function SendActions(r: Root, targets: Targets, round: Round, packetNum: nat, k: nat, done: seq<Action>): seq<Action>
    requires |r.progress| == BITMAP_SIZE && packetNum <= PACKET_NUM
    decreases packetNum - k
  {
    if r.requested == [] || k >= packetNum || round.StopsAt(k) then done
    else
      var (m, now, exit) := PacketStep(r, targets, round, k);
      if exit then done + PacketActions(r, round, k)
      else SendActions(m, targets, round, packetNum, k + 1, done + PacketActions(r, round, k))
  }

  function RoundActions(r: Root, targets: Targets, round: Round, packetNum: nat): seq<Action>
    requires |r.progress| == BITMAP_SIZE && packetNum <= PACKET_NUM && round.Valid()
  {
    var (q, ret) := RequestStatus(r, round.drained, round.attempts);
    RequestActions(r, round.drained, round.attempts)
    + if ret == MDF_OK then [] else SendActions(q, targets, round, packetNum, 0, [])
  }

  /** mupgrade_firmware_send */
  function SendRoundsActions(r: Root, targets: Targets, rounds: seq<Round>, packetNum: nat): seq<Action>
    requires |r.progress| == BITMAP_SIZE && packetNum <= PACKET_NUM
    requires forall i | 0 <= i < |rounds| :: rounds[i].Valid()
    decreases |rounds|
  {
    if rounds == [] || r.unfinished == [] then []
    else
      var (m, now, last) := RoundStep(r, targets, rounds[0], packetNum);
      RoundActions(r, targets, rounds[0], packetNum)
      + if last then [] else SendRoundsActions(m, targets, rounds[1..], packetNum)
  }

  // ---------- they lead where the code does ----------

  ghost predicate Leads(r: Root, actions: seq<Action>, s: Root, packets: set<nat>) {
    DoAll(r, actions) == s && PacketsIn(actions) == packets
  }

  lemma LeadsConcat(r: Root, a: seq<Action>, b: seq<Action>, s: Root, x: set<nat>, s': Root, y: set<nat>)
    requires Leads(r, a, s, x) && Leads(s, b, s', y)
    ensures Leads(r, a + b, s', x + y)
  {
    DoAllConcat(r, a, b);
    PacketsInConcat(a, b);
  }

  lemma LeadsOne(r: Root, a: Action)
    ensures Leads(r, [a], Do(r, a), if a.PacketSent? then {a.k} else {}) && Leads(r, [], r, {})
  {
    assert [a][1..] == [];
    assert DoAll(Do(r, a), []) == Do(r, a);
    assert a.PacketSent? ==> [a][0].k in PacketsIn([a]);
  }

  lemma {:induction false} DrainLeads(r: Root, ms: seq<Msg>)
    ensures Leads(r, DrainActions(r, ms), Drain(r, ms), {})
    decreases |ms|
  {
    if ms != [] && r.unfinished != [] {
      LeadsOne(r, Drained(ms[0]));
      DrainLeads(DrainStep(r, ms[0]), ms[1..]);
      LeadsConcat(r, [Drained(ms[0])], DrainActions(DrainStep(r, ms[0]), ms[1..]), DrainStep(r, ms[0]), {}, Drain(r, ms), {});
    }
  }

  lemma {:induction false} CollectLeads(r: Root, ms: seq<Msg>)
    requires AllReadable(ms) && |r.progress| == BITMAP_SIZE
    ensures Leads(r, CollectActions(r, ms), Collect(r, ms), {})
    decreases |ms|
  {
    if ms != [] && r.pending != [] {
      assert ms[0] in ms;
      LeadsOne(r, Answered(ms[0]));
      CollectLeads(ResponseStep(r, ms[0]), ms[1..]);
      LeadsConcat(r, [Answered(ms[0])], CollectActions(ResponseStep(r, ms[0]), ms[1..]), ResponseStep(r, ms[0]), {},
                  Collect(r, ms), {});
    }
  }

  lemma {:induction false} AttemptsLead(r: Root, attempts: seq<seq<Msg>>)
    requires (forall ms | ms in attempts :: AllReadable(ms)) && |r.progress| == BITMAP_SIZE
    ensures Leads(r, AttemptsActions(r, attempts), Attempts(r, attempts), {})
    decreases |attempts|
  {
    if attempts != [] && r.pending != [] {
      var c := Collect(r, attempts[0]);
      CollectLeads(r, attempts[0]);
      AttemptsLead(c, attempts[1..]);
      LeadsConcat(r, CollectActions(r, attempts[0]), AttemptsActions(c, attempts[1..]), c, {}, Attempts(r, attempts), {});
    }
  }

  lemma RequestLeads(r: Root, drained: seq<Msg>, attempts: seq<seq<Msg>>)
    requires |attempts| <= REQUEST_COUNT && (forall ms | ms in attempts :: AllReadable(ms)) && |r.progress| == BITMAP_SIZE
    ensures Leads(r, RequestActions(r, drained, attempts), RequestStatus(r, drained, attempts).0, {})
  {
    var r0 := r.(requested := []);
    var d := Drain(r0, drained);
    LeadsOne(r, Begin);
    DrainLeads(r0, drained);
    LeadsConcat(r, [Begin], DrainActions(r0, drained), r0, {}, d, {});
    if d.unfinished != [] {
      var b := BeginRequest(d);
      LeadsOne(d, Requested);
      AttemptsLead(b, attempts);
      LeadsConcat(d, [Requested], AttemptsActions(b, attempts), b, {}, Attempts(b, attempts), {});
      LeadsConcat(r, [Begin] + DrainActions(r0, drained), [Requested] + AttemptsActions(b, attempts), d, {},
                  Attempts(b, attempts), {});
    } else {
      assert [Begin] + DrainActions(r0, drained) + [] == [Begin] + DrainActions(r0, drained);
    }
  }

  lemma {:induction false} MidLeads(r: Root, ms: seq<Msg>)
    ensures Leads(r, MidActions(r, ms), DrainMid(r, ms).0, {})
    decreases |ms|
  {
    if ms != [] {
      var s := MidStep(r, ms[0]);
      var rest := MidActions(r, ms)[1..];
      LeadsOne(r, Found(ms[0]));
      assert MidActions(r, ms) == [Found(ms[0])] + rest;
      if rest == [] {
        LeadsOne(s, Begin);
        MidEnds(r, ms);
      } else {
        MidLeads(s, ms[1..]);
      }
      LeadsConcat(r, [Found(ms[0])], rest, s, {}, DrainMid(r, ms).0, {});
    }
  }

  lemma MidEnds(r: Root, ms: seq<Msg>)
    requires ms != [] && MidActions(r, ms)[1..] == []
    ensures DrainMid(r, ms).0 == MidStep(r, ms[0])
  {
  }

  ghost function NumbersOf(sent: seq<Sent>): set<nat> {
    set k | k in Numbers(sent)
  }

  lemma NumbersOfConcat(a: seq<Sent>, b: seq<Sent>)
    ensures NumbersOf(a + b) == NumbersOf(a) + NumbersOf(b)
  {
    assert Numbers(a + b) == Numbers(a) + Numbers(b);
  }

  lemma PacketLeads(r: Root, targets: Targets, round: Round, k: nat)
    requires |r.progress| == BITMAP_SIZE && k < PACKET_NUM
    ensures var (m, now, exit) := PacketStep(r, targets, round, k);
            Leads(r, PacketActions(r, round, k), m, NumbersOf(now))
  {
    var (m, now, exit) := PacketStep(r, targets, round, k);
    LeadsOne(r, Begin);
    assert now == [] ==> NumbersOf(now) == {};
    if !GetBit(r.progress, k) && round.unreadable != Some(k) {
      MidLeads(r, round.Mid(k));
      var mids := MidActions(r, round.Mid(k));
      if exit {
        assert mids + [] == mids;
      } else {
        LeadsOne(m, PacketSent(k));
        LeadsConcat(r, mids, [PacketSent(k)], m, {}, m, {k});
        assert Numbers(now) == [k];
      }
    }
  }

  /** The packet loop. */
  lemma {:induction false} SendLeads(start: Root, done: seq<Action>, r: Root, targets: Targets, round: Round, packetNum: nat, k: nat,
                                     sent: seq<Sent>)
    requires |r.progress| == BITMAP_SIZE && packetNum <= PACKET_NUM && Leads(start, done, r, NumbersOf(sent))
    ensures var (s, all, exit) := SendPackets(r, targets, round, packetNum, k, sent);
            Leads(start, SendActions(r, targets, round, packetNum, k, done), s, NumbersOf(all))
    decreases packetNum - k
  {
    if r.requested != [] && k < packetNum && !round.StopsAt(k) {
      var (m, now, exit) := PacketStep(r, targets, round, k);
      PacketLeads(r, targets, round, k);
      NumbersOfConcat(sent, now);
      LeadsConcat(start, done, PacketActions(r, round, k), r, NumbersOf(sent), m, NumbersOf(now));
      if !exit {
        SendLeads(start, done + PacketActions(r, round, k), m, targets, round, packetNum, k + 1, sent + now);
      }
    }
  }

  lemma RoundLeads(r: Root, targets: Targets, round: Round, packetNum: nat)
    requires |r.progress| == BITMAP_SIZE && packetNum <= PACKET_NUM && round.Valid()
    ensures var (m, now, last) := RoundStep(r, targets, round, packetNum);
            Leads(r, RoundActions(r, targets, round, packetNum), m, NumbersOf(now))
  {
    var (q, ret) := RequestStatus(r, round.drained, round.attempts);
    var ask := RequestActions(r, round.drained, round.attempts);
    RequestLeads(r, round.drained, round.attempts);
    assert NumbersOf([]) == {};
    if ret == MDF_OK {
      assert ask + [] == ask;
    } else {
      var (m, now, exit) := SendPackets(q, targets, round, packetNum, 0, []);
      LeadsOne(q, Begin);
      SendLeads(q, [], q, targets, round, packetNum, 0, []);
      LeadsConcat(r, ask, SendActions(q, targets, round, packetNum, 0, []), q, {}, m, NumbersOf(now));
    }
  }

  lemma {:induction false} SendRoundsLead(r: Root, targets: Targets, rounds: seq<Round>, packetNum: nat, sent: seq<Sent>)
    requires |r.progress| == BITMAP_SIZE && packetNum <= PACKET_NUM
    requires forall i | 0 <= i < |rounds| :: rounds[i].Valid()
    ensures var (m, all) := SendRounds(r, targets, rounds, packetNum, sent);
            && DoAll(r, SendRoundsActions(r, targets, rounds, packetNum)) == m
            && NumbersOf(all) == NumbersOf(sent) + PacketsIn(SendRoundsActions(r, targets, rounds, packetNum))
    decreases |rounds|
  {
    if rounds == [] || r.unfinished == [] {
      LeadsOne(r, Begin);
    } else {
      var (m, now, last) := RoundStep(r, targets, rounds[0], packetNum);
      var first := RoundActions(r, targets, rounds[0], packetNum);
      RoundLeads(r, targets, rounds[0], packetNum);
      NumbersOfConcat(sent, now);
      if last {
        assert first + [] == first;
      } else {
        var rest := SendRoundsActions(m, targets, rounds[1..], packetNum);
        SendRoundsLead(m, targets, rounds[1..], packetNum, sent + now);
        DoAllConcat(r, first, rest);
        PacketsInConcat(first, rest);
      }
    }
  }

  /** mupgrade_firmware_send in a run of the system: if what the root does in it are the actions of
      mupgrade_firmware_send, whatever the devices do in between and with messages that may be
      sent only then, the root ends up as the code says, and the packets on the network are those
      it has sent. */
  lemma SendRefines(u: Setup, s: System, steps: seq<Step>, targets: Targets, rounds: seq<Round>)
    requires u.t.Valid() && |s.root.progress| == BITMAP_SIZE && CanTake(u, s, steps)
    requires forall i | 0 <= i < |rounds| :: rounds[i].Valid()
    requires Actions(steps) == SendRoundsActions(s.root, targets, rounds, u.t.PacketNum())
    ensures var (m, sent) := SendRounds(s.root, targets, rounds, u.t.PacketNum(), []);
            Exec(u, s, steps).root == m && Exec(u, s, steps).packets == s.packets + NumbersOf(sent)
  {
    ExecIsActions(u, s, steps);
    SendRoundsLead(s.root, targets, rounds, u.t.PacketNum(), []);
    assert NumbersOf([]) == {};
  }

  /** The same for one mupgrade_request_status. */
  lemma RequestRefines(u: Setup, s: System, steps: seq<Step>, drained: seq<Msg>, attempts: seq<seq<Msg>>)
    requires u.t.Valid() && |s.root.progress| == BITMAP_SIZE && CanTake(u, s, steps)
    requires |attempts| <= REQUEST_COUNT && forall ms | ms in attempts :: AllReadable(ms)
    requires Actions(steps) == RequestActions(s.root, drained, attempts)
    ensures Exec(u, s, steps).root == RequestStatus(s.root, drained, attempts).0 && Exec(u, s, steps).packets == s.packets
  {
    ExecIsActions(u, s, steps);
    RequestLeads(s.root, drained, attempts);
  }

  // ---------- and they can be taken ----------

  /** What an action needs besides its message: a packet is sent only if it is missing. */
  ghost predicate Fit(r: Root, packetNum: nat, a: Action) {
    match a
    case Answered(m) => m.Readable() && |r.progress| == BITMAP_SIZE
    case PacketSent(k) => k < packetNum && Clear(r.progress, k)
    case _ => true
  }

  ghost predicate AllFit(r: Root, packetNum: nat, actions: seq<Action>) {
    forall i | 0 <= i < |actions| :: Fit(DoAll(r, actions[..i]), packetNum, actions[i])
  }

  lemma AllFitOne(r: Root, packetNum: nat, a: Action)
    requires Fit(r, packetNum, a)
    ensures AllFit(r, packetNum, [a]) && AllFit(r, packetNum, [])
  {
    assert [a][..0] == [];
  }

  lemma AllFitConcat(r: Root, packetNum: nat, a: seq<Action>, b: seq<Action>)
    requires AllFit(r, packetNum, a) && AllFit(DoAll(r, a), packetNum, b)
    ensures AllFit(r, packetNum, a + b)
  {
    forall i | 0 <= i < |a + b| ensures Fit(DoAll(r, (a + b)[..i]), packetNum, (a + b)[i]) {
      if i < |a| {
        assert (a + b)[..i] == a[..i];
      } else {
        assert (a + b)[..i] == a + b[..i - |a|];
        DoAllConcat(r, a, b[..i - |a|]);
      }
    }
  }

  lemma NextFits(r: Root, packetNum: nat, before: seq<Action>, a: Action, rest: seq<Action>)
    requires AllFit(r, packetNum, before + ([a] + rest))
    ensures Fit(DoAll(r, before), packetNum, a)
  {
    var all := before + ([a] + rest);
    assert all[..|before|] == before && all[|before|] == a;
  }

  ghost predicate InNetwork(reports: set<SentReport>, m: Msg) {
    exists r :: r in reports && r.msg == m
  }

  /** The message that an action reads has been sent by then. */
  ghost predicate Arrived(reports: set<SentReport>, a: Action) {
    a.Drained? || a.Answered? || a.Found? ==> InNetwork(reports, a.m)
  }

  lemma StepFor(u: Setup, s: System, a: Action) returns (step: Step)
    requires u.t.Valid() && Fit(s.root, u.t.PacketNum(), a) && Arrived(s.reports, a)
    ensures Possible(u, s, step) && ActionOf(step) == Some(a)
  {
    match a
    case Begin => step := RootStart;
    case Requested => step := RootAsk;
    case PacketSent(k) => step := RootSend(k);
    case Drained(m) =>
      var r :| r in s.reports && r.msg == m;
      step := RootDrain(r);
    case Answered(m) =>
      var r :| r in s.reports && r.msg == m;
      step := RootResponse(r);
    case Found(m) =>
      var r :| r in s.reports && r.msg == m;
      step := RootMid(r);
  }

  lemma {:induction false} DrainFits(r: Root, packetNum: nat, ms: seq<Msg>)
    ensures AllFit(r, packetNum, DrainActions(r, ms))
    decreases |ms|
  {
    if ms != [] && r.unfinished != [] {
      var first := Drained(ms[0]);
      AllFitOne(r, packetNum, first);
      LeadsOne(r, first);
      DrainFits(DrainStep(r, ms[0]), packetNum, ms[1..]);
      AllFitConcat(r, packetNum, [first], DrainActions(DrainStep(r, ms[0]), ms[1..]));
    }
  }

  lemma {:induction false} CollectFits(r: Root, packetNum: nat, ms: seq<Msg>)
    requires AllReadable(ms) && |r.progress| == BITMAP_SIZE
    ensures AllFit(r, packetNum, CollectActions(r, ms))
    decreases |ms|
  {
    if ms != [] && r.pending != [] {
      assert ms[0] in ms;
      var first := Answered(ms[0]);
      AllFitOne(r, packetNum, first);
      LeadsOne(r, first);
      CollectFits(ResponseStep(r, ms[0]), packetNum, ms[1..]);
      AllFitConcat(r, packetNum, [first], CollectActions(ResponseStep(r, ms[0]), ms[1..]));
    }
  }

  lemma {:induction false} AttemptsFit(r: Root, packetNum: nat, attempts: seq<seq<Msg>>)
    requires (forall ms | ms in attempts :: AllReadable(ms)) && |r.progress| == BITMAP_SIZE
    ensures AllFit(r, packetNum, AttemptsActions(r, attempts))
    decreases |attempts|
  {
    if attempts != [] && r.pending != [] {
      var c := Collect(r, attempts[0]);
      CollectFits(r, packetNum, attempts[0]);
      CollectLeads(r, attempts[0]);
      AttemptsFit(c, packetNum, attempts[1..]);
      AllFitConcat(r, packetNum, CollectActions(r, attempts[0]), AttemptsActions(c, attempts[1..]));
    }
  }

  lemma RequestFits(r: Root, packetNum: nat, drained: seq<Msg>, attempts: seq<seq<Msg>>)
    requires forall ms | ms in attempts :: AllReadable(ms)
    ensures AllFit(r, packetNum, RequestActions(r, drained, attempts))
  {
    var r0 := r.(requested := []);
    var d := Drain(r0, drained);
    var begin := [Begin] + DrainActions(r0, drained);
    AllFitOne(r, packetNum, Begin);
    LeadsOne(r, Begin);
    DrainFits(r0, packetNum, drained);
    DrainLeads(r0, drained);
    AllFitConcat(r, packetNum, [Begin], DrainActions(r0, drained));
    LeadsConcat(r, [Begin], DrainActions(r0, drained), r0, {}, d, {});
    var b := BeginRequest(d);
    AllFitOne(d, packetNum, Requested);
    LeadsOne(d, Requested);
    AttemptsFit(b, packetNum, attempts);
    AllFitConcat(d, packetNum, [Requested], AttemptsActions(b, attempts));
    AllFitConcat(r, packetNum, begin, if d.unfinished == [] then [] else [Requested] + AttemptsActions(b, attempts));
  }

  /** All that happens in the packet loop. */
  ghost predicate Loop(progress: seq<Byte>, packetNum: nat, actions: seq<Action>) {
    forall a | a in actions :: a.Found? || (a.PacketSent? && a.k < packetNum && Clear(progress, a.k))
  }

  lemma LoopConcat(progress: seq<Byte>, packetNum: nat, a: seq<Action>, b: seq<Action>)
    requires Loop(progress, packetNum, a) && Loop(progress, packetNum, b)
    ensures Loop(progress, packetNum, a + b)
  {
  }

  lemma {:induction false} LoopKeepsProgress(r: Root, packetNum: nat, actions: seq<Action>)
    requires Loop(r.progress, packetNum, actions)
    ensures DoAll(r, actions).progress == r.progress
    decreases |actions|
  {
    if actions != [] {
      assert actions[0] in actions;
      LoopKeepsProgress(Do(r, actions[0]), packetNum, actions[1..]);
    }
  }

  lemma LoopFits(r: Root, packetNum: nat, actions: seq<Action>)
    requires Loop(r.progress, packetNum, actions)
    ensures AllFit(r, packetNum, actions)
  {
    forall i | 0 <= i < |actions| ensures Fit(DoAll(r, actions[..i]), packetNum, actions[i]) {
      assert actions[i] in actions;
      LoopKeepsProgress(r, packetNum, actions[..i]);
    }
  }

  lemma {:induction false} MidLoop(r: Root, packetNum: nat, ms: seq<Msg>)
    ensures Loop(r.progress, packetNum, MidActions(r, ms))
    decreases |ms|
  {
    if ms != [] {
      MidLoop(MidStep(r, ms[0]), packetNum, ms[1..]);
    }
  }

  lemma PacketLoop(r: Root, round: Round, packetNum: nat, k: nat)
    requires |r.progress| == BITMAP_SIZE && k < packetNum <= PACKET_NUM
    ensures Loop(r.progress, packetNum, PacketActions(r, round, k))
  {
    MidLoop(r, packetNum, round.Mid(k));
  }

  lemma {:induction false} SendLoop(r: Root, targets: Targets, round: Round, packetNum: nat, k: nat, done: seq<Action>)
    requires |r.progress| == BITMAP_SIZE && packetNum <= PACKET_NUM && Loop(r.progress, packetNum, done)
    ensures Loop(r.progress, packetNum, SendActions(r, targets, round, packetNum, k, done))
    decreases packetNum - k
  {
    if r.requested != [] && k < packetNum && !round.StopsAt(k) {
      var (m, now, exit) := PacketStep(r, targets, round, k);
      PacketLoop(r, round, packetNum, k);
      LoopConcat(r.progress, packetNum, done, PacketActions(r, round, k));
      if !exit {
        SendLoop(m, targets, round, packetNum, k + 1, done + PacketActions(r, round, k));
      }
    }
  }

  lemma {:induction false} SendRoundsFit(r: Root, targets: Targets, rounds: seq<Round>, packetNum: nat)
    requires |r.progress| == BITMAP_SIZE && packetNum <= PACKET_NUM
    requires forall i | 0 <= i < |rounds| :: rounds[i].Valid()
    ensures AllFit(r, packetNum, SendRoundsActions(r, targets, rounds, packetNum))
    decreases |rounds|
  {
    if rounds != [] && r.unfinished != [] {
      var (m, now, last) := RoundStep(r, targets, rounds[0], packetNum);
      RoundFits(r, targets, rounds[0], packetNum);
      RoundLeads(r, targets, rounds[0], packetNum);
      var rest := if last then [] else SendRoundsActions(m, targets, rounds[1..], packetNum);
      if !last {
        SendRoundsFit(m, targets, rounds[1..], packetNum);
      }
      AllFitConcat(r, packetNum, RoundActions(r, targets, rounds[0], packetNum), rest);
    }
  }

  lemma RoundFits(r: Root, targets: Targets, round: Round, packetNum: nat)
    requires |r.progress| == BITMAP_SIZE && packetNum <= PACKET_NUM && round.Valid()
    ensures AllFit(r, packetNum, RoundActions(r, targets, round, packetNum))
  {
    var (q, ret) := RequestStatus(r, round.drained, round.attempts);
    RequestFits(r, packetNum, round.drained, round.attempts);
    RequestLeads(r, round.drained, round.attempts);
    var send := if ret == MDF_OK then [] else SendActions(q, targets, round, packetNum, 0, []);
    if ret != MDF_OK {
      SendLoop(q, targets, round, packetNum, 0, []);
      LoopFits(q, packetNum, send);
    }
    AllFitConcat(r, packetNum, RequestActions(r, round.drained, round.attempts), send);
  }

  /** In the middle of mupgrade_firmware_send, with the devices wherever they are, the root's next
      action is possible exactly if the message that it reads, if any, has been sent by now. */
  lemma NextActionIff(u: Setup, s: System, steps: seq<Step>, a: Action, rest: seq<Action>, targets: Targets, rounds: seq<Round>)
    requires u.t.Valid() && |s.root.progress| == BITMAP_SIZE && CanTake(u, s, steps)
    requires forall i | 0 <= i < |rounds| :: rounds[i].Valid()
    requires Actions(steps) + ([a] + rest) == SendRoundsActions(s.root, targets, rounds, u.t.PacketNum())
    ensures (exists step :: Possible(u, Exec(u, s, steps), step) && ActionOf(step) == Some(a))
            <==> Arrived(Exec(u, s, steps).reports, a)
  {
    var now := Exec(u, s, steps);
    ExecIsActions(u, s, steps);
    SendRoundsFit(s.root, targets, rounds, u.t.PacketNum());
    NextFits(s.root, u.t.PacketNum(), Actions(steps), a, rest);
    if Arrived(now.reports, a) {
      var step := StepFor(u, now, a);
    }
    forall step | Possible(u, now, step) && ActionOf(step) == Some(a) ensures Arrived(now.reports, a) {
    }
  }

  // ---------- where restarts are not harmless ----------

  /** No report was sent with packet 0 in place. */
  ghost predicate AllErased(u: Setup, s: System) {
    forall r | r in s.reports :: FirstErased(u.t, r.partition)
  }

  /** What happens to a device is a run of the system, if the root has sent what it receives. */
  lemma {:induction false} NodeSteps(u: Setup, s: System, a: Addr, ops: seq<Op>) returns (steps: seq<Step>)
    requires u.t.Valid() && u.reboots && s.asked && a in s.nodes && WellFormed(s.nodes[a])
    requires Withheld(u.t, ops) && (forall k: nat | k < u.t.PacketNum() :: k in s.packets)
    requires Hidden(u.t, s.nodes[a], ops) && AllErased(u, s)
    ensures CanTake(u, s, steps)
    ensures var s' := Exec(u, s, steps);
            && s'.root == s.root && s'.packets == s.packets && s'.asked && s'.nodes.Keys == s.nodes.Keys
            && s'.nodes[a] == Run(u.t, s.nodes[a], ops) && AllErased(u, s')
    decreases |ops|
  {
    steps := [];
    if ops != [] {
      var step := NodeStep(a, ops[0]);
      assert Possible(u, s, step);
      var s' := UpgradeSystem.Take(u, s, step);
      HiddenStep(u.t, s.nodes[a], ops);
      var more := NodeSteps(u, s', a, ops[1..]);
      ExecOne(u, s, step, more);
      steps := [step] + more;
    }
  }

  lemma HiddenStep(t: Transfer, n: Node, ops: seq<Op>)
    requires t.Valid() && WellFormed(n) && Hidden(t, n, ops) && ops != []
    ensures Hidden(t, Apply(t, n, ops[0]).0, ops[1..]) && FirstErased(t, Apply(t, n, ops[0]).0.update)
  {
    assert Hidden(t, Apply(t, n, ops[0]).0, ops[1..]);
  }

  /** The root sends all packets from k on. */
  lemma {:induction false} SendAllSteps(u: Setup, s: System, k: nat) returns (steps: seq<Step>)
    requires u.t.Valid() && s.root.progress == Zeros(BITMAP_SIZE) && forall j: nat | j < k :: j in s.packets
    ensures CanTake(u, s, steps)
    ensures var s' := Exec(u, s, steps);
            && s' == s.(packets := s'.packets)
            && forall j: nat | j < u.t.PacketNum() :: j in s'.packets
    decreases u.t.PacketNum() - k
  {
    steps := [];
    if k < u.t.PacketNum() {
      MembersZeros(BITMAP_SIZE);
      assert k !in Members(s.root.progress);
      var s' := UpgradeSystem.Take(u, s, RootSend(k));
      var more := SendAllSteps(u, s', k + 1);
      ExecOne(u, s, RootSend(k), more);
      steps := [RootSend(k)] + more;
    }
  }

  /** The root asks the only target, gets its first answer and sends everything. */
  lemma Opening(u: Setup, s: System, a: Addr) returns (steps: seq<Step>)
    requires u.t.Valid() && Start(u, s) && u.targets == [a] && a in s.nodes && !s.nodes[a].isRoot
    ensures CanTake(u, s, steps)
    ensures var s' := Exec(u, s, steps);
            && s'.asked && s'.nodes == s.nodes[a := Asked(u.t, s.nodes[a])]
            && s'.root.unfinished == [a] && s'.root.successed == [] && AllErased(u, s')
            && forall k: nat | k < u.t.PacketNum() :: k in s'.packets
  {
    var s1 := UpgradeSystem.Take(u, s, RootAsk);
    var s2 := UpgradeSystem.Take(u, s1, NodeStep(a, Ask));
    var r := FirstAnswer(u, s1, a);
    var s3 := UpgradeSystem.Take(u, s2, RootResponse(r));
    assert s3.root.progress == Zeros(BITMAP_SIZE) && s3.root.unfinished == [a];
    var send := SendAllSteps(u, s3, 0);
    ExecOne(u, s2, RootResponse(r), send);
    ExecOne(u, s1, NodeStep(a, Ask), [RootResponse(r)] + send);
    ExecOne(u, s, RootAsk, [NodeStep(a, Ask)] + ([RootResponse(r)] + send));
    steps := [RootAsk] + ([NodeStep(a, Ask)] + ([RootResponse(r)] + send));
  }

  /** Nothing has been written yet. */
  lemma FirstAnswer(u: Setup, s: System, a: Addr) returns (r: SentReport)
    requires u.t.Valid() && s.asked && a in s.nodes && !s.nodes[a].isRoot && Initial(u.t, s.nodes[a]) && s.reports == {}
    ensures var s' := UpgradeSystem.Take(u, s, NodeStep(a, Ask));
            && s'.reports == {r} && FirstErased(u.t, r.partition)
            && r.msg.src == a && r.msg.report.writtenSize == 0 && r.msg.report.totalSize == |u.t.image| && !r.msg.Stopped()
  {
    var (n, reports) := Apply(u.t, s.nodes[a], Ask);
    r := SentReport(Msg(a, reports[0]), n.update, n.bootsUpdate);
    assert reports == [reports[0]];
    assert forall x | x in reports :: x == reports[0];
    assert reports[0] in reports;
  }

  /** The device completes by count and the root believes it. */
  lemma Closing(u: Setup, s: System, a: Addr, last: nat) returns (steps: seq<Step>)
    requires u.t.Valid() && a in s.nodes && WellFormed(s.nodes[a]) && AllErased(u, s)
    requires last in s.packets && s.root.unfinished == [a] && s.root.successed == []
    requires Completes(u.t, s.nodes[a], last)
    ensures CanTake(u, s, steps)
    ensures var s' := Exec(u, s, steps);
            && a in s'.nodes && s'.nodes[a].bootsUpdate && FirstErased(u.t, s'.nodes[a].update)
            && s'.root.successed == [a] && AllErased(u, s')
  {
    var step := NodeStep(a, Data(last, true));
    var (m, reports) := Apply(u.t, s.nodes[a], Data(last, true));
    var s1 := UpgradeSystem.Take(u, s, step);
    var r := SentReport(Msg(a, reports[0]), m.update, m.bootsUpdate);
    assert reports[0] in reports && r in s1.reports && r.msg.Complete();
    var s2 := UpgradeSystem.Take(u, s1, RootDrain(r));
    assert s2.root.successed == [] + [a];
    ExecOne(u, s1, RootDrain(r), []);
    ExecOne(u, s, step, [RootDrain(r)] + []);
    steps := [step] + ([RootDrain(r)] + []);
  }

  /** Nobody has selected an incomplete image, whether or not the root has been told. */
  ghost predicate Trustworthy(u: Setup, s: System) {
    forall a | a in s.nodes :: s.nodes[a].bootsUpdate ==> Installed(u.t, s.nodes[a].update)
  }

  /** Whoever the root counts as successful has sent a report with the image in place. */
  ghost predicate SuccessHonest(u: Setup, s: System) {
    forall a | a in s.root.successed :: exists r :: r in s.reports && r.msg.src == a && Installed(u.t, r.partition)
  }

  lemma NotInstalled(t: Transfer, flash: seq<Byte>)
    requires t.Valid() && t.image[0] != 0xFF && FirstErased(t, flash)
    ensures !Installed(t, flash)
  {
    if Installed(t, flash) {
      SameAsImage(t, flash);
    }
  }

  /** A run in which the root counts its only target as successful although no report was ever sent
      with the image in place and the device has selected an incomplete image. */
  lemma FalseSuccess(u: Setup, s: System, a: Addr, first: nat, w: nat, m: nat) returns (steps: seq<Step>)
    requires u.t.Valid() && Start(u, s) && a in s.nodes && !s.nodes[a].isRoot && Driftable(u.t, s.nodes[a].interval, first, w, m)
    requires u.t.image[0] != 0xFF && u.reboots && u.targets == [a]
    ensures CanTake(u, s, steps)
    ensures var s' := Exec(u, s, steps);
            && s'.root.successed == [a] && !SuccessHonest(u, s')
            && (forall r | r in s'.reports :: !Installed(u.t, r.partition))
            && a in s'.nodes && !Trustworthy(u, s')
  {
    var ops, n, last := UpToLast(u.t, s.nodes[a], first, w, m);
    var open := Opening(u, s, a);
    var s1 := Exec(u, s, open);
    var middle := NodeSteps(u, s1, a, ops);
    var s2 := Exec(u, s1, middle);
    var close := Closing(u, s2, a, last);
    ExecConcat(u, s1, middle, close);
    ExecConcat(u, s, open, middle + close);
    steps := open + (middle + close);
    Dishonest(u, Exec(u, s, steps), a);
  }

  lemma Dishonest(u: Setup, s: System, a: Addr)
    requires u.t.Valid() && u.t.image[0] != 0xFF && AllErased(u, s) && s.root.successed == [a]
    requires a in s.nodes && s.nodes[a].bootsUpdate && FirstErased(u.t, s.nodes[a].update)
    ensures (forall r | r in s.reports :: !Installed(u.t, r.partition)) && !SuccessHonest(u, s) && !Trustworthy(u, s)
  {
    forall r | r in s.reports ensures !Installed(u.t, r.partition) {
      NotInstalled(u.t, r.partition);
    }
    NotInstalled(u.t, s.nodes[a].update);
    assert s.root.successed[0] == a && a in s.root.successed;
  }

  /** One device that is the only target. */
  lemma SmallestSystem(t: Transfer, a: Addr, interval: nat) returns (u: Setup, s: System)
    requires t.Valid() && 1 <= interval
    ensures u.t == t && u.reboots && u.targets == [a] && Start(u, s)
    ensures s.nodes.Keys == {a} && !s.nodes[a].isRoot && s.nodes[a].interval == interval
  {
    var n := Node(false, interval, t.image, t.image, false, None, None, false, interval);
    u := Setup(t, [a], map[a := t.image], true);
    s := System(Root([a], [], [], [], Zeros(BITMAP_SIZE)), map[a := n], false, {}, {}, {});
  }

  ghost predicate AllIntervals(s: System, interval: nat) {
    forall a | a in s.nodes :: s.nodes[a].interval == interval
  }

  /** A run as bad as that wherever the count can be made up. */
  lemma DishonestRun(size: nat, interval: nat) returns (u: Setup, states: seq<System>)
    requires 0 < size <= PACKET_SIZE * PACKET_NUM && 1 <= interval && CanDrift(size, interval)
    ensures |u.t.image| == size && IsRun(u, states) && AllIntervals(states[0], interval)
    ensures var s := states[|states| - 1]; !SuccessHonest(u, s) && !Trustworthy(u, s)
  {
    var t := Transfer("", seq(size, _ => 0));
    assert |t.image| == size;
    var a := Mac(0, 0, 0, 0, 0, 0);
    var s;
    u, s := SmallestSystem(t, a, interval);
    var first, w, m := Drifts(t, interval);
    var steps := FalseSuccess(u, s, a, first, w, m);
    assert IsRun(u, [s]);
    states := ExecIsRun(u, [s], steps);
    assert states[0] == [s][0];
  }

  /** In all runs of all systems with images of this size and devices with this report interval,
      restarts included, only complete images are selected for booting, if and only if the count
      cannot be made up. */
  lemma SystemSafeIff(size: nat, interval: nat)
    requires 0 < size <= PACKET_SIZE * PACKET_NUM && 1 <= interval
    ensures !CanDrift(size, interval) <==>
            forall u: Setup, states: seq<System> |
              |u.t.image| == size && IsRun(u, states) && AllIntervals(states[0], interval) ::
              Trustworthy(u, states[|states| - 1])
  {
    if !CanDrift(size, interval) {
      forall u: Setup, states: seq<System> |
        |u.t.image| == size && IsRun(u, states) && AllIntervals(states[0], interval)
        ensures Trustworthy(u, states[|states| - 1])
      {
        assert Harmless(u, states[0]);
        var last := |states| - 1;
        forall a | a in states[last].nodes && states[last].nodes[a].bootsUpdate
          ensures Installed(u.t, states[last].nodes[a].update)
        {
          OnlyCompleteImagesBoot(u, states, last, a);
        }
      }
    } else {
      var u, states := DishonestRun(size, interval);
    }
  }

  /** And exactly then whoever the root ever counts as successful has sent a report while its
      update partition held the image. */
  lemma SuccessHonestIff(size: nat, interval: nat)
    requires 0 < size <= PACKET_SIZE * PACKET_NUM && 1 <= interval
    ensures !CanDrift(size, interval) <==>
            forall u: Setup, states: seq<System> |
              |u.t.image| == size && IsRun(u, states) && AllIntervals(states[0], interval) ::
              SuccessHonest(u, states[|states| - 1])
  {
    if !CanDrift(size, interval) {
      forall u: Setup, states: seq<System> |
        |u.t.image| == size && IsRun(u, states) && AllIntervals(states[0], interval)
        ensures SuccessHonest(u, states[|states| - 1])
      {
        assert Harmless(u, states[0]);
        var last := |states| - 1;
        forall a | a in states[last].root.successed
          ensures exists r :: r in states[last].reports && r.msg.src == a && Installed(u.t, r.partition)
        {
          SuccessMeansInstalled(u, states, last, a);
        }
      }
    } else {
      var u, states := DishonestRun(size, interval);
    }
  }
}
