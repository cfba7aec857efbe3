/** Device and root together over one round and over two rounds without losses. */
module UpgradeRounds {
  import opened Prelude
  import opened Bitmap
  import opened Addresses
  import opened UpgradeNode
  import opened UpgradeInvariant
  import opened UpgradeRuns
  import opened UpgradeRoot
  import opened UpgradeAccounting
  import opened UpgradeCoverage
  import opened UpgradeOutcome

  // ---------- one round ----------

  /** What is sent to a device reaches it: every packet whose destination includes it. */
  ghost predicate Delivers(sent: seq<Sent>, a: Addr, root: Addr, ops: seq<Op>) {
    forall i | 0 <= i < |sent| && Reaches(sent[i].dest, a, root) :: Data(sent[i].seqNo, true) in ops
  }

  /** The device answers a status request, the root accepts that answer along with those of any
      other devices and goes through its packet loop. If what is addressed to the device reaches
      it, among whatever else reaches it in the meantime, it ends with the complete image. */
  lemma RoundDelivers(t: Transfer, n: Node, a: Addr, root: Addr, r: Root, targets: Targets, round: Round, ops: seq<Op>)
    requires t.Valid() && UpgradeInvariant.Inv(t, n) && a != root
    requires |r.progress| == BITMAP_SIZE && NoDup(r.unfinished + r.successed) && round.Valid()
    requires forall ms | ms in round.attempts :: AllReportsOk(t, ms)
    requires Msg(a, HandleStatus(n, RootRequest(t)).1) in RoundAccepted(r, round.drained, round.attempts)
    requires var (q, ret) := RequestStatus(r, round.drained, round.attempts);
             var (s, sent, exit) := SendPackets(q, targets, round, t.PacketNum(), 0, []);
             && ret != MDF_OK && !exit && a in s.requested && round.stopAt.None?
             && Delivers(sent, a, root, ops)
    requires forall op | op in ops :: Steady(op)
    ensures Complete(t, Run(t, HandleStatus(n, RootRequest(t)).0, ops))
  {
    var q := RequestStatus(r, round.drained, round.attempts).0;
    var sent := SendPackets(q, targets, round, t.PacketNum(), 0, []).1;
    PacketsReachRequested(q, targets, round, t.PacketNum(), 0, [], root, a);
    forall k | k in Numbers(sent) ensures Data(k, true) in ops {
      var i :| 0 <= i < |sent| && sent[i].seqNo == k;
      assert Reaches(sent[i].dest, a, root);
    }
    AllPacketsArrive(t, n, a, r, targets, round, ops);
  }

  lemma AllPacketsArrive(t: Transfer, n: Node, a: Addr, r: Root, targets: Targets, round: Round, ops: seq<Op>)
    requires t.Valid() && UpgradeInvariant.Inv(t, n)
    requires |r.progress| == BITMAP_SIZE && NoDup(r.unfinished + r.successed) && round.Valid()
    requires forall ms | ms in round.attempts :: AllReportsOk(t, ms)
    requires Msg(a, HandleStatus(n, RootRequest(t)).1) in RoundAccepted(r, round.drained, round.attempts)
    requires var (q, ret) := RequestStatus(r, round.drained, round.attempts);
             var (s, sent, exit) := SendPackets(q, targets, round, t.PacketNum(), 0, []);
             && ret != MDF_OK && !exit && s.requested != [] && round.stopAt.None?
             && (forall k | k in Numbers(sent) :: Data(k, true) in ops)
    requires forall op | op in ops :: Steady(op)
    ensures Complete(t, Run(t, HandleStatus(n, RootRequest(t)).0, ops))
  {
    var (n1, rep) := HandleStatus(n, RootRequest(t));
    var q := RequestStatus(r, round.drained, round.attempts).0;
    StatusKeepsInv(t, n, RootRequest(t));
    AnsweredHas(t, n, a);
    RoundCovers(t, a, rep, r, targets, round, ops);
    RoundCompletes(t, n1, q.progress, ops);
  }

  /** A device that has answered holds what its answer says. */
  lemma AnsweredHas(t: Transfer, n: Node, a: Addr)
    requires t.Valid() && UpgradeInvariant.Inv(t, n)
    ensures var (n1, rep) := HandleStatus(n, RootRequest(t));
            !Msg(a, rep).Stopped() ==> Downloading(t, n1) && forall k: nat | Msg(a, rep).Has(k) :: Has(n1, k)
  {
  }

  /** Every packet is either common to all the accepted answers or among those delivered. */
  lemma RoundCovers(t: Transfer, a: Addr, rep: Report, r: Root, targets: Targets, round: Round, ops: seq<Op>)
    requires t.Valid()
    requires |r.progress| == BITMAP_SIZE && NoDup(r.unfinished + r.successed) && round.Valid()
    requires forall ms | ms in round.attempts :: AllReportsOk(t, ms)
    requires Msg(a, rep) in RoundAccepted(r, round.drained, round.attempts)
    requires var (q, ret) := RequestStatus(r, round.drained, round.attempts);
             var (s, sent, exit) := SendPackets(q, targets, round, t.PacketNum(), 0, []);
             && ret != MDF_OK && !exit && s.requested != [] && round.stopAt.None?
             && (forall k | k in Numbers(sent) :: Data(k, true) in ops)
    ensures !Msg(a, rep).Stopped()
    ensures var q := RequestStatus(r, round.drained, round.attempts).0;
            forall k: nat | k < t.PacketNum() ::
              && (GetBit(q.progress, k) || Data(k, true) in ops)
              && (GetBit(q.progress, k) ==> Msg(a, rep).Has(k))
  {
    AcceptedNotStopped(r, round.drained, round.attempts, Msg(a, rep));
    var q := RequestStatus(r, round.drained, round.attempts).0;
    var accepted := RoundAccepted(r, round.drained, round.attempts);
    forall k: nat | k < t.PacketNum()
      ensures GetBit(q.progress, k) || Data(k, true) in ops
      ensures GetBit(q.progress, k) ==> Msg(a, rep).Has(k)
    {
      RoundSendsUnionAt(t, r, targets, round, k);
      InAll(accepted, Msg(a, rep), k);
    }
  }

  lemma InAll(accepted: seq<Msg>, m: Msg, k: nat)
    requires m in accepted
    ensures AllHave(accepted, k) ==> m.Has(k)
  {
  }

  lemma AcceptedNotStopped(r: Root, drained: seq<Msg>, attempts: seq<seq<Msg>>, m: Msg)
    requires (forall ms | ms in attempts :: AllReadable(ms)) && |r.progress| == BITMAP_SIZE
    requires m in RoundAccepted(r, drained, attempts)
    ensures !m.Stopped()
  {
    var d := Drain(r.(requested := []), drained);
    AllAcceptedNotStopped(BeginRequest(d), attempts);
  }

  lemma {:induction false} AllAcceptedNotStopped(r: Root, attempts: seq<seq<Msg>>)
    requires (forall ms | ms in attempts :: AllReadable(ms)) && |r.progress| == BITMAP_SIZE
    ensures forall m | m in AllAccepted(r, attempts) :: !m.Stopped()
    decreases |attempts|
  {
    if attempts != [] && r.pending != [] {
      OneAcceptedNotStopped(r, attempts[0]);
      AllAcceptedNotStopped(Collect(r, attempts[0]), attempts[1..]);
    }
  }

  lemma {:induction false} OneAcceptedNotStopped(r: Root, ms: seq<Msg>)
    requires AllReadable(ms) && |r.progress| == BITMAP_SIZE
    ensures forall m | m in Accepted(r, ms) :: !m.Stopped()
    decreases |ms|
  {
    if ms != [] && r.pending != [] {
      OneAcceptedNotStopped(ResponseStep(r, ms[0]), ms[1..]);
    }
  }

  // ---------- two rounds ----------

  /** The answer of each device to the root's request. */
  function AnswerOf(t: Transfer, nodes: map<Addr, Node>, a: Addr): Msg
    requires t.Valid() && a in nodes && Loadable(nodes[a])
  {
    Msg(a, HandleStatus(nodes[a], RootRequest(t)).1)
  }

  /** No device has stopped, and all of them are consistent; the root is one of them or not. */
  ghost predicate Running(t: Transfer, nodes: map<Addr, Node>, root: Addr)
    requires t.Valid()
  {
    forall a | a in nodes ::
      && UpgradeInvariant.Inv(t, nodes[a]) && (nodes[a].isRoot ==> a == root)
      && Load(nodes[a]).errorCode != MDF_ERR_MUPGRADE_STOP
      && (a == root ==> nodes[a].isRoot)
  }

  /** The message does not stop anybody, and who says that it is done, is. */
  ghost predicate Honest(t: Transfer, nodes: map<Addr, Node>, m: Msg) {
    !m.Stopped() && (m.Complete() ==> m.src in nodes && Complete(t, nodes[m.src]))
  }

  /** The devices asked answer, each of them once or more in any of the attempts. What others send,
      late reports for instance, is readable and stops nobody. */
  ghost predicate AnsweredBy(t: Transfer, nodes: map<Addr, Node>, asked: seq<Addr>, attempts: seq<seq<Msg>>)
    requires t.Valid() && forall a | a in nodes :: Loadable(nodes[a])
  {
    && |attempts| <= REQUEST_COUNT
    && (forall a | a in asked :: a in nodes && Replies(attempts, a))
    && forall ms, m | ms in attempts && m in ms ::
         if m.src in asked then m.src in nodes && m == AnswerOf(t, nodes, m.src)
         else ReportOk(t, m.report) && m.Readable() && !m.Stopped()
  }

  /** The round goes through; whatever is read between its packets stops nobody. */
  ghost predicate Undisturbed(round: Round) {
    && round.stopAt.None? && round.unreadable.None?
    && forall ms, m | ms in round.mids && m in ms :: !m.Stopped() && 0 < m.report.totalSize
  }

  lemma AnswerFacts(t: Transfer, nodes: map<Addr, Node>, root: Addr, a: Addr)
    requires t.Valid() && Running(t, nodes, root) && a in nodes
    ensures var (n, report) := HandleStatus(nodes[a], RootRequest(t));
            && Truthful(t, n, report) && UpgradeInvariant.Inv(t, n) && Downloading(t, n)
            && report.errorCode != MDF_ERR_MUPGRADE_STOP && ReportOk(t, report)
            && (report.writtenSize == report.totalSize <==> Complete(t, n))
            && (a == root ==> report.writtenSize == report.totalSize)
  {
    StatusKeepsInv(t, nodes[a], RootRequest(t));
    var n := HandleStatus(nodes[a], RootRequest(t)).0;
    CompleteByCount(t, n);
    if a == root {
      RootAnswersComplete(t, nodes[a]);
    }
  }

  lemma CompleteByCount(t: Transfer, n: Node)
    requires t.Valid() && UpgradeInvariant.Inv(t, n) && Downloading(t, n)
    ensures n.config.value.writtenSize == |t.image| <==> Complete(t, n)
  {
    CompleteIffAllBits(t, n.config.value.bitmap);
    assert forall k: nat | k < t.PacketNum() :: Has(n, k) <==> GetBit(n.config.value.bitmap, k);
    CompleteIffHasAll(t, n);
  }

  /** Complete devices stay complete. */
  lemma StaysComplete(t: Transfer, n: Node, ops: seq<Op>)
    requires t.Valid() && UpgradeInvariant.Inv(t, n) && Complete(t, n) && forall op | op in ops :: Steady(op)
    ensures Complete(t, Run(t, n, ops))
  {
    RoundCompletes(t, n, n.config.value.bitmap, ops);
  }

  // ---------- the status request of the first round ----------

  lemma {:induction false} PendingLeft(r: Root, ms: seq<Msg>, a: Addr)
    requires AllReadable(ms) && |r.progress| == BITMAP_SIZE && NoDup(r.pending)
    requires a in Collect(r, ms).pending
    ensures a in r.pending && !Answers(ms, a)
    decreases |ms|
  {
    if ms != [] && r.pending != [] {
      var s := ResponseStep(r, ms[0]);
      NoDupRemove(r.pending, ms[0].src);
      RemoveFirstContents(r.pending, ms[0].src);
      PendingLeft(s, ms[1..], a);
      assert forall m | m in ms :: m == ms[0] || m in ms[1..];
    } else {
      NobodyLeft(r.pending);
    }
  }

  /** Who is still to answer in the end has not answered any of the requests. */
  lemma {:induction false} PendingAfterAll(t: Transfer, r: Root, attempts: seq<seq<Msg>>, a: Addr)
    requires t.Valid() && |r.progress| == BITMAP_SIZE && Covers(r)
    requires forall ms | ms in attempts :: AllReportsOk(t, ms) && AllReadable(ms)
    requires a in Attempts(r, attempts).pending
    ensures a in r.pending && !Replies(attempts, a)
    decreases |attempts|
  {
    if attempts != [] && r.pending != [] {
      CollectCovers(t, r, attempts[0]);
      PendingAfterAll(t, Collect(r, attempts[0]), attempts[1..], a);
      PendingLeft(r, attempts[0], a);
      assert forall ms | ms in attempts :: ms == attempts[0] || ms in attempts[1..];
    } else {
      NobodyLeft(r.pending);
    }
  }

  lemma {:induction false} AcceptedAreAnswers(r: Root, ms: seq<Msg>)
    requires AllReadable(ms) && |r.progress| == BITMAP_SIZE
    ensures forall m | m in Accepted(r, ms) :: m in ms
    decreases |ms|
  {
    if ms != [] && r.pending != [] {
      AcceptedAreAnswers(ResponseStep(r, ms[0]), ms[1..]);
    }
  }

  lemma {:induction false} AllAcceptedAreAnswers(r: Root, attempts: seq<seq<Msg>>)
    requires (forall ms | ms in attempts :: AllReadable(ms)) && |r.progress| == BITMAP_SIZE
    ensures forall m | m in AllAccepted(r, attempts) :: m in AllMessages(attempts)
    decreases |attempts|
  {
    if attempts != [] && r.pending != [] {
      AcceptedAreAnswers(r, attempts[0]);
      AllAcceptedAreAnswers(Collect(r, attempts[0]), attempts[1..]);
      assert AllMessages(attempts[1..]) <= AllMessages(attempts);
      assert Messages(attempts[0]) <= AllMessages(attempts);
      assert forall m | m in attempts[0] :: m in Messages(attempts[0]);
    }
  }

  lemma AnswersAreFit(t: Transfer, nodes: map<Addr, Node>, root: Addr, asked: seq<Addr>, attempts: seq<seq<Msg>>)
    requires t.Valid() && Running(t, nodes, root) && AnsweredBy(t, nodes, asked, attempts)
    ensures forall ms | ms in attempts :: AllReportsOk(t, ms) && AllReadable(ms)
    ensures forall m | m in AllMessages(attempts) :: !m.Stopped()
  {
    forall ms, m | ms in attempts && m in ms ensures ReportOk(t, m.report) && m.Readable() && !m.Stopped() {
      if m.src in asked {
        AnswerFacts(t, nodes, root, m.src);
      }
    }
  }

  lemma DrainedList(r: Root, drained: seq<Msg>)
    requires NoDup(r.unfinished + r.successed)
    ensures var d := Drain(r.(requested := []), drained);
            && Accounts(r, d, Messages(drained)) && d.requested == [] && d.unfinished == Recipients(r, drained)
            && Covers(BeginRequest(d))
  {
    var r0 := r.(requested := []);
    var d := Drain(r0, drained);
    DrainAccounts(r0, drained);
    AccountsLike(r0, d, r, d, Messages(drained));
    DrainKeepsRequested(r0, drained);
    NoDupConcat(d.unfinished, d.successed);
  }

  /** Who is unfinished after the request had been asked. */
  lemma UnfinishedWereAsked(r: Root, drained: seq<Msg>, attempts: seq<seq<Msg>>)
    requires NoDup(r.unfinished + r.successed) && |r.progress| == BITMAP_SIZE && |attempts| <= REQUEST_COUNT
    requires forall ms | ms in attempts :: AllReadable(ms)
    ensures var q := RequestStatus(r, drained, attempts).0;
            && (forall a | a in q.unfinished :: a in Recipients(r, drained))
            && forall a | a in Recipients(r, drained) ::
                 a in q.unfinished || CompleteFrom(AllMessages(attempts), a) || StoppedFrom(AllMessages(attempts), a)
  {
    DrainedList(r, drained);
    var d := Drain(r.(requested := []), drained);
    if d.unfinished != [] {
      var b := BeginRequest(d);
      AttemptsAccounts(b, attempts);
      AccountsMeaning(b, Attempts(b, attempts), AllMessages(attempts));
      NoDupConcat(b.unfinished, b.successed);
    }
  }

  /** After a status request that everybody asked answers, whoever is still unfinished is
      requested, with its own answer accepted. */
  lemma EverybodyAnswers(t: Transfer, nodes: map<Addr, Node>, root: Addr, r: Root, drained: seq<Msg>, attempts: seq<seq<Msg>>, a: Addr)
    requires t.Valid() && Running(t, nodes, root) && AnsweredBy(t, nodes, Recipients(r, drained), attempts)
    requires |r.progress| == BITMAP_SIZE && NoDup(r.unfinished + r.successed)
    requires (forall ms | ms in attempts :: AllReadable(ms)) && a in RequestStatus(r, drained, attempts).0.unfinished
    ensures a in Recipients(r, drained) && a in nodes && a != root && a in RequestStatus(r, drained, attempts).0.requested
    ensures AnswerOf(t, nodes, a) in RoundAccepted(r, drained, attempts)
  {
    AnswersAreFit(t, nodes, root, Recipients(r, drained), attempts);
    RequestStatusMeaning(t, r, drained, attempts);
    UnfinishedWereAsked(r, drained, attempts);
    DrainedList(r, drained);
    var q := RequestStatus(r, drained, attempts).0;
    var b := BeginRequest(Drain(r.(requested := []), drained));
    if a in q.pending {
      PendingAfterAll(t, b, attempts, a);
      assert false;
    }
    AllAcceptedAreAnswers(b, attempts);
    var accepted := RoundAccepted(r, drained, attempts);
    var i :| 0 <= i < |accepted| && accepted[i].src == a;
    assert accepted[i] in accepted && accepted[i] == AnswerOf(t, nodes, a);
    AnswerFacts(t, nodes, root, a);
  }

  // ---------- the packets of the first round ----------

  lemma {:induction false} HarmlessMids(r: Root, ms: seq<Msg>)
    requires forall m | m in ms :: !m.Stopped() && 0 < m.report.totalSize
    ensures var (s, exit) := DrainMid(r, ms); s == r && (exit ==> r.unfinished == [])
    decreases |ms|
  {
    if ms != [] {
      assert ms[0] in ms;
      HarmlessMids(r, ms[1..]);
    }
  }

  lemma {:induction false} UndisturbedPackets(r: Root, targets: Targets, round: Round, packetNum: nat, k: nat, sent: seq<Sent>)
    requires |r.progress| == BITMAP_SIZE && packetNum <= PACKET_NUM && Undisturbed(round)
    ensures var (s, _, exit) := SendPackets(r, targets, round, packetNum, k, sent); s == r && (exit ==> r.unfinished == [])
    decreases packetNum - k
  {
    if r.requested != [] && k < packetNum {
      var (m, now, exit) := PacketStep(r, targets, round, k);
      assert round.Mid(k) != [] ==> round.Mid(k) in round.mids;
      HarmlessMids(r, round.Mid(k));
      if !exit {
        UndisturbedPackets(r, targets, round, packetNum, k + 1, sent + now);
      }
    }
  }

  /** The devices after whatever has reached them since. */
  function Later(t: Transfer, nodes: map<Addr, Node>, ops: map<Addr, seq<Op>>): (later: map<Addr, Node>)
    requires t.Valid() && nodes.Keys == ops.Keys && forall a | a in nodes :: WellFormed(nodes[a])
    ensures later.Keys == nodes.Keys && forall a | a in later :: WellFormed(later[a])
  {
    map a | a in nodes :: assert WellFormed(nodes[a]); Run(t, nodes[a], ops[a])
  }

  /** Nobody stops or restarts, and whoever is asked gets first the request and then everything
      sent in the round that is addressed to it. */
  ghost predicate NothingLost(nodes: map<Addr, Node>, root: Addr, asked: seq<Addr>, sent: seq<Sent>, ops: map<Addr, seq<Op>>) {
    && nodes.Keys == ops.Keys
    && (forall a | a in ops :: forall op | op in ops[a] :: Steady(op))
    && forall a | a in asked && a in ops :: ops[a] != [] && ops[a][0] == Ask && Delivers(sent, a, root, ops[a][1..])
  }

  /** What the first round is about: everybody asked answers, and nothing is lost. */
  ghost predicate Lossless(t: Transfer, nodes: map<Addr, Node>, root: Addr, r: Root, targets: Targets, round: Round,
                           ops: map<Addr, seq<Op>>)
    requires t.Valid() && round.Valid() && |r.progress| == BITMAP_SIZE && Running(t, nodes, root)
  {
    && AnsweredBy(t, nodes, Recipients(r, round.drained), round.attempts) && Undisturbed(round)
    && (forall m | m in round.drained :: Honest(t, nodes, m))
    && var q := RequestStatus(r, round.drained, round.attempts).0;
       var sent := SendPackets(q, targets, round, t.PacketNum(), 0, []).1;
       NothingLost(nodes, root, Recipients(r, round.drained), sent, ops)
  }

  /** Who had reported completion before the request. */
  lemma DrainedIsComplete(t: Transfer, nodes: map<Addr, Node>, r: Root, drained: seq<Msg>, a: Addr)
    requires NoDup(r.unfinished + r.successed) && forall m | m in drained :: Honest(t, nodes, m)
    requires a in r.unfinished && a !in Recipients(r, drained)
    ensures a in nodes && Complete(t, nodes[a])
  {
    DrainedList(r, drained);
    var d := Drain(r.(requested := []), drained);
    AccountsMeaning(r, d, Messages(drained));
    NoDupConcat(r.unfinished, r.successed);
  }

  /** Who had been asked and is not unfinished any more has said so. */
  lemma AnswerIsComplete(t: Transfer, nodes: map<Addr, Node>, root: Addr, r: Root, drained: seq<Msg>, attempts: seq<seq<Msg>>, a: Addr)
    requires t.Valid() && Running(t, nodes, root) && AnsweredBy(t, nodes, Recipients(r, drained), attempts)
    requires NoDup(r.unfinished + r.successed) && |r.progress| == BITMAP_SIZE && forall ms | ms in attempts :: AllReadable(ms)
    requires a in Recipients(r, drained) && a !in RequestStatus(r, drained, attempts).0.unfinished
    ensures a in nodes && Complete(t, HandleStatus(nodes[a], RootRequest(t)).0)
  {
    AnswersAreFit(t, nodes, root, Recipients(r, drained), attempts);
    UnfinishedWereAsked(r, drained, attempts);
    AnswerFacts(t, nodes, root, a);
    assert CompleteFrom(AllMessages(attempts), a);
    assert AnswerOf(t, nodes, a).Complete();
  }

  /** After the first round every target has the complete image. */
  lemma AllComplete(t: Transfer, nodes: map<Addr, Node>, root: Addr, r: Root, targets: Targets, round: Round,
                    ops: map<Addr, seq<Op>>, a: Addr)
    requires t.Valid() && Running(t, nodes, root) && round.Valid() && |r.progress| == BITMAP_SIZE
    requires NoDup(r.unfinished + r.successed) && Lossless(t, nodes, root, r, targets, round, ops) && a in r.unfinished
    ensures a in nodes && Complete(t, Later(t, nodes, ops)[a])
  {
    if a in Recipients(r, round.drained) {
      AskedCompletes(t, nodes, root, r, targets, round, ops, a);
    } else {
      DrainedIsComplete(t, nodes, r, round.drained, a);
      StaysComplete(t, nodes[a], ops[a]);
    }
  }

  lemma AskedCompletes(t: Transfer, nodes: map<Addr, Node>, root: Addr, r: Root, targets: Targets, round: Round,
                       ops: map<Addr, seq<Op>>, a: Addr)
    requires t.Valid() && Running(t, nodes, root) && round.Valid() && |r.progress| == BITMAP_SIZE
    requires NoDup(r.unfinished + r.successed) && Lossless(t, nodes, root, r, targets, round, ops)
    requires a in Recipients(r, round.drained)
    ensures a in nodes && Complete(t, Later(t, nodes, ops)[a])
  {
    AnswerFacts(t, nodes, root, a);
    var n := HandleStatus(nodes[a], RootRequest(t)).0;
    var rest := ops[a][1..];
    var q := RequestStatus(r, round.drained, round.attempts).0;
    if a in q.unfinished {
      AnswersAreFit(t, nodes, root, Recipients(r, round.drained), round.attempts);
      EverybodyAnswers(t, nodes, root, r, round.drained, round.attempts, a);
      RequestStatusMeaning(t, r, round.drained, round.attempts);
      UndisturbedPackets(q, targets, round, t.PacketNum(), 0, []);
      RoundDelivers(t, nodes[a], a, root, r, targets, round, rest);
    } else {
      AnswerIsComplete(t, nodes, root, r, round.drained, round.attempts, a);
      StaysComplete(t, n, rest);
    }
    assert Later(t, nodes, ops)[a] == Run(t, n, rest);
  }

  // ---------- the second round ----------

  lemma CompleteReplies(t: Transfer, n: Node)
    requires t.Valid() && WellFormed(n) && Complete(t, n)
    ensures var report := HandleStatus(n, RootRequest(t)).1;
            report.writtenSize == report.totalSize == |t.image| && report.errorCode != MDF_ERR_MUPGRADE_STOP
  {
  }

  /** The status request of the second round returns MDF_OK. */
  lemma SecondRequest(t: Transfer, later: map<Addr, Node>, q: Root, drained: seq<Msg>, attempts: seq<seq<Msg>>)
    requires t.Valid() && (forall a | a in later :: Loadable(later[a]) && WellFormed(later[a]))
    requires NoDup(q.unfinished + q.successed) && |q.progress| == BITMAP_SIZE
    requires forall a | a in q.unfinished :: a in later && Complete(t, later[a])
    requires forall m | m in drained :: !m.Stopped()
    requires AnsweredBy(t, later, Recipients(q, drained), attempts)
    ensures forall ms | ms in attempts :: AllReadable(ms)
    ensures var (s, ret) := RequestStatus(q, drained, attempts);
            ret == MDF_OK && s.unfinished == [] && forall a | a in q.unfinished || a in q.successed :: a in s.successed
  {
    var asked := Recipients(q, drained);
    DrainedList(q, drained);
    AccountsMeaning(q, Drain(q.(requested := []), drained), Messages(drained));
    forall ms, m | ms in attempts && m in ms
      ensures m.Readable() && !m.Stopped() && (m.src in asked ==> m.Complete() && m.report.writtenSize != 0)
    {
      if m.src in asked {
        CompleteReplies(t, later[m.src]);
      }
    }
    assert forall ms | ms in attempts :: AllFinished(ms, asked);
    LastStatusRequest(q, drained, attempts);
  }

  /** Two rounds without losses. In the first one, everybody who has not reported completion
      already answers one of up to three requests and everything sent arrives; in the second one
      everybody who has not reported completion in the meantime answers again. Reports that come
      in between do no harm. Then mupgrade_firmware_send returns MDF_OK, all the targets are
      successed, and all of them have the image. */
  lemma TwoRounds(t: Transfer, nodes: map<Addr, Node>, root: Addr, r: Root, targets: Targets, first: Round,
                  ops: map<Addr, seq<Op>>, second: Round)
    requires t.Valid() && Running(t, nodes, root) && first.Valid() && second.Valid()
    requires |r.progress| == BITMAP_SIZE && NoDup(r.unfinished + r.successed)
    requires Lossless(t, nodes, root, r, targets, first, ops)
    requires forall m | m in second.drained :: !m.Stopped()
    requires var q := RequestStatus(r, first.drained, first.attempts).0;
             AnsweredBy(t, Later(t, nodes, ops), Recipients(q, second.drained), second.attempts)
    ensures var s := SendRounds(r, targets, [first, second], t.PacketNum(), []).0;
            && SendResult(s) == MDF_OK && s.unfinished == []
            && forall a | a in r.unfinished ::
                 a in s.successed && a in nodes && Installed(t, Later(t, nodes, ops)[a].update)
  {
    forall a | a in r.unfinished ensures a in nodes && Complete(t, Later(t, nodes, ops)[a]) {
      AllComplete(t, nodes, root, r, targets, first, ops, a);
    }
    var ms := Messages(first.drained) + AllMessages(first.attempts);
    var (q, ret) := RequestStatus(r, first.drained, first.attempts);
    AnswersAreFit(t, nodes, root, Recipients(r, first.drained), first.attempts);
    RequestStatusMeaning(t, r, first.drained, first.attempts);
    RequestAccounts(r, first.drained, first.attempts);
    AccountsMeaning(r, q, ms);
    SecondRequest(t, Later(t, nodes, ops), q, second.drained, second.attempts);
    RoundsEnd(r, targets, first, second, t.PacketNum());
  }

  /** What the two rounds come down to. */
  lemma RoundsEnd(r: Root, targets: Targets, first: Round, second: Round, packetNum: nat)
    requires |r.progress| == BITMAP_SIZE && packetNum <= PACKET_NUM && first.Valid() && second.Valid() && Undisturbed(first)
    requires var (q, ret) := RequestStatus(r, first.drained, first.attempts);
             && (ret == MDF_OK ==> q.unfinished == [])
             && RequestStatus(q, second.drained, second.attempts).1 == MDF_OK
    ensures var q := RequestStatus(r, first.drained, first.attempts).0;
            SendRounds(r, targets, [first, second], packetNum, []).0
            == (if r.unfinished == [] then r
                else if q.unfinished == [] then q
                else RequestStatus(q, second.drained, second.attempts).0)
  {
    var rounds := [first, second];
    assert rounds[0] == first && rounds[1..] == [second] && rounds[1..][1..] == [];
    var q := RequestStatus(r, first.drained, first.attempts).0;
    UndisturbedPackets(q, targets, first, packetNum, 0, []);
  }
}
