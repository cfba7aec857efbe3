/** What the root's lists and its progress array mean after any exchange of messages. */
module UpgradeAccounting {
  import opened Prelude
  import opened Bitmap
  import opened Addresses
  import opened UpgradeNode
  import opened UpgradeInvariant
  import opened UpgradeRoot

  // ---------- nobody is lost and nobody is counted twice ----------

  ghost predicate CompleteFrom(ms: set<Msg>, a: Addr) {
    exists m :: m in ms && m.src == a && m.Complete()
  }

  ghost predicate StoppedFrom(ms: set<Msg>, a: Addr) {
    exists m :: m in ms && m.src == a && m.Stopped()
  }

  /** From r to s, having read only messages in ms, address a has stayed unfinished, has moved to
      the successful ones because of a complete report of its own, or has left because of a stop
      report of its own. */
  ghost predicate AccountsFor(r: Root, s: Root, ms: set<Msg>, a: Addr) {
    && (a in s.unfinished ==> a in r.unfinished)
    && (a in s.successed ==> a in r.successed || (a in r.unfinished && CompleteFrom(ms, a)))
    && (a in r.unfinished ==> a in s.unfinished || a in s.successed || StoppedFrom(ms, a))
  }

  ghost predicate Accounts(r: Root, s: Root, ms: set<Msg>) {
    && NoDup(s.unfinished + s.successed)
    && r.successed <= s.successed
    && forall a :: AccountsFor(r, s, ms, a)
  }

  /** The same, spelled out. */
  lemma AccountsMeaning(r: Root, s: Root, ms: set<Msg>)
    requires Accounts(r, s, ms)
    ensures forall a | a in s.unfinished :: a in r.unfinished
    ensures forall a | a in s.successed :: a in r.successed || (a in r.unfinished && CompleteFrom(ms, a))
    ensures forall a | a in r.unfinished :: a in s.unfinished || a in s.successed || StoppedFrom(ms, a)
  {
    forall a | a in s.unfinished ensures a in r.unfinished {
      assert AccountsFor(r, s, ms, a);
    }
    forall a | a in s.successed ensures a in r.successed || (a in r.unfinished && CompleteFrom(ms, a)) {
      assert AccountsFor(r, s, ms, a);
    }
    forall a | a in r.unfinished ensures a in s.unfinished || a in s.successed || StoppedFrom(ms, a) {
      assert AccountsFor(r, s, ms, a);
    }
  }

  /** Only the two lists matter. */
  lemma AccountsLike(r: Root, s: Root, r': Root, s': Root, ms: set<Msg>)
    requires Accounts(r, s, ms)
    requires r'.unfinished == r.unfinished && r'.successed == r.successed
    requires s'.unfinished == s.unfinished && s'.successed == s.successed
    ensures Accounts(r', s', ms)
  {
    forall a ensures AccountsFor(r', s', ms, a) {
      assert AccountsFor(r, s, ms, a);
    }
  }

  lemma AccountsSame(r: Root, s: Root, ms: set<Msg>)
    requires NoDup(r.unfinished + r.successed)
    requires s.unfinished == r.unfinished && s.successed == r.successed
    ensures Accounts(r, s, ms)
  {
  }

  lemma AccountsThen(r: Root, s: Root, u: Root, ms: set<Msg>)
    requires Accounts(r, s, ms) && Accounts(s, u, ms)
    ensures Accounts(r, u, ms)
  {
    forall a ensures AccountsFor(r, u, ms, a) {
      assert AccountsFor(r, s, ms, a) && AccountsFor(s, u, ms, a);
    }
  }

  lemma AccountsMore(r: Root, s: Root, few: set<Msg>, many: set<Msg>)
    requires Accounts(r, s, few) && few <= many
    ensures Accounts(r, s, many)
  {
    forall a ensures AccountsFor(r, s, many, a) {
      assert AccountsFor(r, s, few, a);
    }
  }

  lemma SucceedAccounts(r: Root, m: Msg)
    requires NoDup(r.unfinished + r.successed) && m.Complete()
    ensures Accounts(r, Succeed(r, m.src), {m})
  {
    var s := Succeed(r, m.src);
    if m.src in r.unfinished {
      NoDupConcat(r.unfinished, r.successed);
      NoDupRemove(r.unfinished, m.src);
      MovedOver(r.unfinished, r.successed, m.src);
      assert s.unfinished == RemoveFirst(r.unfinished, m.src) && s.successed == r.successed + [m.src];
    } else {
      AccountsSame(r, s, {m});
    }
  }

  lemma MovedOver(x: seq<Addr>, y: seq<Addr>, a: Addr)
    requires a in x && NoDup(x + y)
    ensures NoDup(RemoveFirst(x, a) + (y + [a]))
  {
    RemoveFirstContents(x, a);
    assert a in multiset(x);
    assert multiset(RemoveFirst(x, a) + (y + [a])) == multiset(x + y);
  }

  lemma LeaveAccounts(r: Root, s: Root, m: Msg)
    requires NoDup(r.unfinished + r.successed) && m.Stopped()
    requires s.unfinished == RemoveFirst(r.unfinished, m.src) && s.successed == r.successed
    ensures Accounts(r, s, {m})
  {
    NoDupConcat(r.unfinished, r.successed);
    NoDupRemove(r.unfinished, m.src);
    RemoveFirstContents(r.unfinished, m.src);
    forall a: Addr ensures multiset(s.unfinished + s.successed)[a] <= 1 {
      assert multiset(r.unfinished + r.successed)[a] <= 1;
    }
  }

  lemma DrainStepAccounts(r: Root, m: Msg)
    requires NoDup(r.unfinished + r.successed)
    ensures Accounts(r, DrainStep(r, m), {m})
  {
    if m.Complete() { SucceedAccounts(r, m); }
    else if m.Stopped() { LeaveAccounts(r, DrainStep(r, m), m); }
  }

  lemma ResponseStepAccounts(r: Root, m: Msg)
    requires NoDup(r.unfinished + r.successed) && m.Readable() && |r.progress| == BITMAP_SIZE
    ensures Accounts(r, ResponseStep(r, m), {m})
  {
    if m.Stopped() {
      LeaveAccounts(r, ResponseStep(r, m), m);
    } else if m.src in r.pending && m.report.writtenSize != 0 && m.Complete() {
      var p := r.(pending := RemoveFirst(r.pending, m.src));
      SucceedAccounts(p, m);
      AccountsLike(p, Succeed(p, m.src), r, ResponseStep(r, m), {m});
    }
  }

  /** The odd completion test of the packet loop never fires: images are not empty. */
  lemma MidStepAccounts(r: Root, m: Msg)
    requires NoDup(r.unfinished + r.successed) && 0 < m.report.totalSize
    ensures Accounts(r, MidStep(r, m), {m})
    ensures MidStep(r, m).successed == r.successed
  {
    if m.Stopped() { LeaveAccounts(r, MidStep(r, m), m); }
  }

  ghost function Messages(ms: seq<Msg>): set<Msg> {
    set m | m in ms
  }

  lemma {:induction false} DrainAccounts(r: Root, ms: seq<Msg>)
    requires NoDup(r.unfinished + r.successed)
    ensures Accounts(r, Drain(r, ms), Messages(ms))
    decreases |ms|
  {
    if ms == [] || r.unfinished == [] {
      AccountsSame(r, r, Messages(ms));
    } else {
      var s := DrainStep(r, ms[0]);
      DrainStepAccounts(r, ms[0]);
      DrainAccounts(s, ms[1..]);
      AccountsMore(r, s, {ms[0]}, Messages(ms));
      AccountsMore(s, Drain(s, ms[1..]), Messages(ms[1..]), Messages(ms));
      AccountsThen(r, s, Drain(s, ms[1..]), Messages(ms));
    }
  }

  lemma {:induction false} CollectAccounts(r: Root, ms: seq<Msg>)
    requires NoDup(r.unfinished + r.successed) && AllReadable(ms) && |r.progress| == BITMAP_SIZE
    ensures Accounts(r, Collect(r, ms), Messages(ms))
    decreases |ms|
  {
    if ms == [] || r.pending == [] {
      AccountsSame(r, r, Messages(ms));
    } else {
      var s := ResponseStep(r, ms[0]);
      ResponseStepAccounts(r, ms[0]);
      CollectAccounts(s, ms[1..]);
      AccountsMore(r, s, {ms[0]}, Messages(ms));
      AccountsMore(s, Collect(s, ms[1..]), Messages(ms[1..]), Messages(ms));
      AccountsThen(r, s, Collect(s, ms[1..]), Messages(ms));
    }
  }

  ghost function AllMessages(attempts: seq<seq<Msg>>): set<Msg> {
    set ms, m | ms in attempts && m in ms :: m
  }

  lemma {:induction false} AttemptsAccounts(r: Root, attempts: seq<seq<Msg>>)
    requires NoDup(r.unfinished + r.successed) && |r.progress| == BITMAP_SIZE
    requires forall ms | ms in attempts :: AllReadable(ms)
    ensures Accounts(r, Attempts(r, attempts), AllMessages(attempts))
    decreases |attempts|
  {
    if attempts == [] || r.pending == [] {
      AccountsSame(r, r, AllMessages(attempts));
    } else {
      var s := Collect(r, attempts[0]);
      CollectAccounts(r, attempts[0]);
      AttemptsAccounts(s, attempts[1..]);
      AccountsMore(r, s, Messages(attempts[0]), AllMessages(attempts));
      AccountsMore(s, Attempts(s, attempts[1..]), AllMessages(attempts[1..]), AllMessages(attempts));
      AccountsThen(r, s, Attempts(s, attempts[1..]), AllMessages(attempts));
    }
  }

  lemma RequestAccounts(r: Root, drained: seq<Msg>, attempts: seq<seq<Msg>>)
    requires NoDup(r.unfinished + r.successed) && |r.progress| == BITMAP_SIZE
    requires |attempts| <= REQUEST_COUNT && forall ms | ms in attempts :: AllReadable(ms)
    ensures Accounts(r, RequestStatus(r, drained, attempts).0, Messages(drained) + AllMessages(attempts))
  {
    var ms := Messages(drained) + AllMessages(attempts);
    var d := Drain(r.(requested := []), drained);
    DrainAccounts(r.(requested := []), drained);
    AccountsLike(r.(requested := []), d, r, d, Messages(drained));
    AccountsMore(r, d, Messages(drained), ms);
    if d.unfinished != [] {
      var b := BeginRequest(d);
      AttemptsAccounts(b, attempts);
      AccountsMore(b, Attempts(b, attempts), AllMessages(attempts), ms);
      AccountsLike(b, Attempts(b, attempts), d, Attempts(b, attempts), ms);
      AccountsThen(r, d, Attempts(b, attempts), ms);
    }
  }

  ghost function RoundMessages(round: Round): set<Msg> {
    Messages(round.drained) + AllMessages(round.attempts) + AllMessages(round.mids)
  }

  ghost predicate NonEmptyImages(ms: set<Msg>) {
    forall m | m in ms :: 0 < m.report.totalSize
  }

  lemma {:induction false} DrainMidAccounts(r: Root, ms: seq<Msg>)
    requires NoDup(r.unfinished + r.successed) && NonEmptyImages(Messages(ms))
    ensures Accounts(r, DrainMid(r, ms).0, Messages(ms))
    decreases |ms|
  {
    if ms == [] {
      AccountsSame(r, r, Messages(ms));
    } else {
      assert ms[0] in Messages(ms);
      var s := MidStep(r, ms[0]);
      MidStepAccounts(r, ms[0]);
      AccountsMore(r, s, {ms[0]}, Messages(ms));
      DrainMidAccounts(s, ms[1..]);
      AccountsMore(s, DrainMid(s, ms[1..]).0, Messages(ms[1..]), Messages(ms));
      AccountsThen(r, s, DrainMid(s, ms[1..]).0, Messages(ms));
    }
  }

  lemma PacketStepAccounts(r: Root, targets: Targets, round: Round, k: nat, ms: set<Msg>)
    requires NoDup(r.unfinished + r.successed) && |r.progress| == BITMAP_SIZE && k < PACKET_NUM
    requires NonEmptyImages(ms) && AllMessages(round.mids) <= ms
    ensures Accounts(r, PacketStep(r, targets, round, k).0, ms)
  {
    if GetBit(r.progress, k) {
      AccountsSame(r, r, ms);
    } else {
      assert Messages(round.Mid(k)) <= AllMessages(round.mids);
      DrainMidAccounts(r, round.Mid(k));
      AccountsMore(r, DrainMid(r, round.Mid(k)).0, Messages(round.Mid(k)), ms);
    }
  }

  lemma PacketStepThen(start: Root, r: Root, targets: Targets, round: Round, k: nat, ms: set<Msg>)
    requires Accounts(start, r, ms) && |r.progress| == BITMAP_SIZE && k < PACKET_NUM
    requires NonEmptyImages(ms) && AllMessages(round.mids) <= ms
    ensures Accounts(start, PacketStep(r, targets, round, k).0, ms)
  {
    PacketStepAccounts(r, targets, round, k, ms);
    AccountsThen(start, r, PacketStep(r, targets, round, k).0, ms);
  }

  lemma SendPacketsTurn(r: Root, targets: Targets, round: Round, packetNum: nat, k: nat, sent: seq<Sent>)
    requires |r.progress| == BITMAP_SIZE && k < packetNum <= PACKET_NUM
    requires !(r.requested == [] || round.StopsAt(k))
    ensures var (m, now, exit) := PacketStep(r, targets, round, k);
            SendPackets(r, targets, round, packetNum, k, sent) ==
            if exit then (m, sent + now, true) else SendPackets(m, targets, round, packetNum, k + 1, sent + now)
  {
  }

  lemma {:induction false} SendPacketsAccounts(start: Root, r: Root, targets: Targets, round: Round, packetNum: nat, k: nat,
                                               sent: seq<Sent>, ms: set<Msg>)
    requires Accounts(start, r, ms) && |r.progress| == BITMAP_SIZE && packetNum <= PACKET_NUM
    requires NonEmptyImages(ms) && AllMessages(round.mids) <= ms
    ensures Accounts(start, SendPackets(r, targets, round, packetNum, k, sent).0, ms)
    decreases packetNum - k
  {
    if r.requested != [] && k < packetNum && !round.StopsAt(k) {
      var (m, now, exit) := PacketStep(r, targets, round, k);
      PacketStepThen(start, r, targets, round, k, ms);
      SendPacketsTurn(r, targets, round, packetNum, k, sent);
      if !exit {
        SendPacketsAccounts(start, m, targets, round, packetNum, k + 1, sent + now, ms);
      }
    }
  }

  lemma RoundStepAccounts(r: Root, targets: Targets, round: Round, packetNum: nat)
    requires NoDup(r.unfinished + r.successed) && |r.progress| == BITMAP_SIZE && packetNum <= PACKET_NUM
    requires round.Valid() && NonEmptyImages(RoundMessages(round))
    ensures Accounts(r, RoundStep(r, targets, round, packetNum).0, RoundMessages(round))
  {
    var ms := RoundMessages(round);
    var (q, ret) := RequestStatus(r, round.drained, round.attempts);
    RequestAccounts(r, round.drained, round.attempts);
    AccountsMore(r, q, Messages(round.drained) + AllMessages(round.attempts), ms);
    if ret != MDF_OK {
      assert AllMessages(round.mids) <= ms;
      SendPacketsAccounts(r, q, targets, round, packetNum, 0, [], ms);
    }
  }

  ghost function RunMessages(rounds: seq<Round>): set<Msg> {
    set round, m | round in rounds && m in RoundMessages(round) :: m
  }

  /** Root accounting over a whole mupgrade_firmware_send. */
  lemma {:induction false} SendAccounts(r: Root, targets: Targets, rounds: seq<Round>, packetNum: nat, sent: seq<Sent>)
    requires NoDup(r.unfinished + r.successed) && |r.progress| == BITMAP_SIZE && packetNum <= PACKET_NUM
    requires forall i | 0 <= i < |rounds| :: rounds[i].Valid()
    requires NonEmptyImages(RunMessages(rounds))
    ensures Accounts(r, SendRounds(r, targets, rounds, packetNum, sent).0, RunMessages(rounds))
    decreases |rounds|
  {
    var ms := RunMessages(rounds);
    if rounds == [] || r.unfinished == [] {
      AccountsSame(r, r, ms);
    } else {
      var round := rounds[0];
      assert round.Valid() && RoundMessages(round) <= ms;
      RoundStepAccounts(r, targets, round, packetNum);
      var (m, now, last) := RoundStep(r, targets, round, packetNum);
      AccountsMore(r, m, RoundMessages(round), ms);
      if !last {
        assert RunMessages(rounds[1..]) <= ms;
        SendAccounts(m, targets, rounds[1..], packetNum, sent + now);
        AccountsMore(m, SendRounds(m, targets, rounds[1..], packetNum, sent + now).0, RunMessages(rounds[1..]), ms);
        AccountsThen(r, m, SendRounds(m, targets, rounds[1..], packetNum, sent + now).0, ms);
      }
    }
  }
}
