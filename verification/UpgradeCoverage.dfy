/** What one round asks for and sends: progress_array is the intersection of the reported
    bitmaps, the packets sent are the union of what was reported missing, and a status request
    succeeds exactly when nobody is left. */
module UpgradeCoverage {
  import opened Prelude
  import opened Bitmap
  import opened Addresses
  import opened UpgradeNode
  import opened UpgradeInvariant
  import opened UpgradeRoot
  import opened UpgradeAccounting

  ghost predicate AllReportsOk(t: Transfer, ms: seq<Msg>)
    requires t.Valid()
  {
    forall m | m in ms :: ReportOk(t, m.report)
  }

  // ---------- progress_array ----------

  /** The answers that put their sender on the list of devices to send packets to. */
  ghost function Accepted(r: Root, ms: seq<Msg>): seq<Msg>
    requires AllReadable(ms) && |r.progress| == BITMAP_SIZE
    decreases |ms|
  {
    if ms == [] || r.pending == [] then []
    else
      (if !ms[0].Stopped() && ms[0].src in r.pending && !ms[0].Complete() then [ms[0]] else [])
      + Accepted(ResponseStep(r, ms[0]), ms[1..])
  }

  ghost function AllAccepted(r: Root, attempts: seq<seq<Msg>>): seq<Msg>
    requires (forall ms | ms in attempts :: AllReadable(ms)) && |r.progress| == BITMAP_SIZE
    decreases |attempts|
  {
    if attempts == [] || r.pending == [] then []
    else Accepted(r, attempts[0]) + AllAccepted(Collect(r, attempts[0]), attempts[1..])
  }

  /** The answers accepted in one status request. */
  ghost function RoundAccepted(r: Root, drained: seq<Msg>, attempts: seq<seq<Msg>>): seq<Msg>
    requires (forall ms | ms in attempts :: AllReadable(ms)) && |r.progress| == BITMAP_SIZE
  {
    var d := Drain(r.(requested := []), drained);
    if d.unfinished == [] then [] else AllAccepted(BeginRequest(d), attempts)
  }

  ghost function Sources(ms: seq<Msg>): (s: seq<Addr>)
    ensures |s| == |ms|
  {
    seq(|ms|, i requires 0 <= i < |ms| => ms[i].src)
  }

  ghost predicate AllHave(ms: seq<Msg>, k: nat) {
    forall m | m in ms :: m.Has(k)
  }

  lemma ResponseProgress(r: Root, m: Msg, k: nat)
    requires |r.progress| == BITMAP_SIZE && k < PACKET_NUM && m.Readable() && 0 < m.report.totalSize
    ensures GetBit(ResponseStep(r, m).progress, k) <==>
            GetBit(r.progress, k) && (!m.Stopped() && m.src in r.pending && !m.Complete() ==> m.Has(k))
  {
    if m.report.writtenSize == 0 {
      assert k !in Members(Zeros(BITMAP_SIZE)) by { MembersZeros(BITMAP_SIZE); }
    } else if !m.Complete() {
      MembersAnd(r.progress, m.report.bitmap);
      assert GetBit(And(r.progress, m.report.bitmap), k) <==> k in Members(And(r.progress, m.report.bitmap));
    }
  }

  lemma {:induction false} CollectProgress(t: Transfer, r: Root, ms: seq<Msg>, k: nat)
    requires t.Valid() && AllReportsOk(t, ms) && AllReadable(ms) && |r.progress| == BITMAP_SIZE && k < PACKET_NUM
    ensures GetBit(Collect(r, ms).progress, k) <==> GetBit(r.progress, k) && AllHave(Accepted(r, ms), k)
    decreases |ms|
  {
    if ms != [] && r.pending != [] {
      ResponseProgress(r, ms[0], k);
      CollectProgress(t, ResponseStep(r, ms[0]), ms[1..], k);
    }
  }

  lemma {:induction false} AttemptsProgress(t: Transfer, r: Root, attempts: seq<seq<Msg>>, k: nat)
    requires t.Valid() && |r.progress| == BITMAP_SIZE && k < PACKET_NUM
    requires forall ms | ms in attempts :: AllReportsOk(t, ms) && AllReadable(ms)
    ensures GetBit(Attempts(r, attempts).progress, k) <==> GetBit(r.progress, k) && AllHave(AllAccepted(r, attempts), k)
    decreases |attempts|
  {
    if attempts != [] && r.pending != [] {
      CollectProgress(t, r, attempts[0], k);
      AttemptsProgress(t, Collect(r, attempts[0]), attempts[1..], k);
    }
  }

  lemma {:induction false} CollectRequested(r: Root, ms: seq<Msg>)
    requires AllReadable(ms) && |r.progress| == BITMAP_SIZE
    ensures Collect(r, ms).requested == r.requested + Sources(Accepted(r, ms))
    decreases |ms|
  {
    if ms != [] && r.pending != [] {
      CollectRequested(ResponseStep(r, ms[0]), ms[1..]);
    }
  }

  lemma {:induction false} AttemptsRequested(r: Root, attempts: seq<seq<Msg>>)
    requires (forall ms | ms in attempts :: AllReadable(ms)) && |r.progress| == BITMAP_SIZE
    ensures Attempts(r, attempts).requested == r.requested + Sources(AllAccepted(r, attempts))
    decreases |attempts|
  {
    if attempts != [] && r.pending != [] {
      CollectRequested(r, attempts[0]);
      AttemptsRequested(Collect(r, attempts[0]), attempts[1..]);
    }
  }

  lemma {:induction false} AcceptedReportsOk(t: Transfer, r: Root, ms: seq<Msg>)
    requires t.Valid() && AllReportsOk(t, ms) && AllReadable(ms) && |r.progress| == BITMAP_SIZE
    ensures forall m | m in Accepted(r, ms) :: ReportOk(t, m.report) && !m.Complete()
    decreases |ms|
  {
    if ms != [] && r.pending != [] {
      AcceptedReportsOk(t, ResponseStep(r, ms[0]), ms[1..]);
    }
  }

  lemma {:induction false} AllAcceptedReportsOk(t: Transfer, r: Root, attempts: seq<seq<Msg>>)
    requires t.Valid() && |r.progress| == BITMAP_SIZE
    requires forall ms | ms in attempts :: AllReportsOk(t, ms) && AllReadable(ms)
    ensures forall m | m in AllAccepted(r, attempts) :: ReportOk(t, m.report) && !m.Complete()
    decreases |attempts|
  {
    if attempts != [] && r.pending != [] {
      AcceptedReportsOk(t, r, attempts[0]);
      AllAcceptedReportsOk(t, Collect(r, attempts[0]), attempts[1..]);
    }
  }

  /** A truthful report of an unfinished device shows a packet it lacks. */
  lemma ReportShowsGap(t: Transfer, m: Msg) returns (k: nat)
    requires t.Valid() && ReportOk(t, m.report) && !m.Complete()
    ensures k < t.PacketNum() && !m.Has(k)
  {
    if m.report.writtenSize == 0 {
      k := 0;
    } else {
      k :| k < t.PacketNum() && !GetBit(m.report.bitmap, k);
    }
  }

  // ---------- mupgrade_request_status ----------

  /** The devices still to be answered or sent to cover all the unfinished ones. */
  ghost predicate Covers(r: Root) {
    && NoDup(r.unfinished) && NoDup(r.pending)
    && (forall a | a in r.pending :: a in r.unfinished)
    && (forall a | a in r.unfinished :: a in r.pending || a in r.requested)
  }

  lemma ResponseCovers(r: Root, m: Msg)
    requires m.Readable() && |r.progress| == BITMAP_SIZE && Covers(r) && 0 < m.report.totalSize
    ensures Covers(ResponseStep(r, m))
  {
    NoDupRemove(r.unfinished, m.src);
    NoDupRemove(r.pending, m.src);
  }

  lemma {:induction false} CollectCovers(t: Transfer, r: Root, ms: seq<Msg>)
    requires t.Valid() && AllReportsOk(t, ms) && AllReadable(ms) && |r.progress| == BITMAP_SIZE && Covers(r)
    ensures Covers(Collect(r, ms))
    decreases |ms|
  {
    if ms != [] && r.pending != [] {
      ResponseCovers(r, ms[0]);
      CollectCovers(t, ResponseStep(r, ms[0]), ms[1..]);
    }
  }

  lemma {:induction false} AttemptsCover(t: Transfer, r: Root, attempts: seq<seq<Msg>>)
    requires t.Valid() && |r.progress| == BITMAP_SIZE && Covers(r)
    requires forall ms | ms in attempts :: AllReportsOk(t, ms) && AllReadable(ms)
    ensures Covers(Attempts(r, attempts))
    decreases |attempts|
  {
    if attempts != [] && r.pending != [] {
      CollectCovers(t, r, attempts[0]);
      AttemptsCover(t, Collect(r, attempts[0]), attempts[1..]);
    }
  }

  /** The verdict of mupgrade_request_status. The accepted answers are those of the devices on
      the requested list, in order: progress_array is the intersection of their bitmaps, everybody
      unfinished is either still to answer or requested, and MDF_OK means that nobody is
      unfinished and nobody has to be sent anything. */
  lemma RequestStatusMeaning(t: Transfer, r: Root, drained: seq<Msg>, attempts: seq<seq<Msg>>)
    requires t.Valid() && |r.progress| == BITMAP_SIZE && NoDup(r.unfinished + r.successed)
    requires |attempts| <= REQUEST_COUNT
    requires forall ms | ms in attempts :: AllReportsOk(t, ms) && AllReadable(ms)
    ensures var (s, ret) := RequestStatus(r, drained, attempts);
            var accepted := RoundAccepted(r, drained, attempts);
            && s.requested == Sources(accepted)
            && (forall m | m in accepted :: ReportOk(t, m.report) && !m.Complete())
            && (ret == MDF_OK <==> s.unfinished == [] && s.requested == [])
            && (ret != MDF_OK ==>
                  && (forall k: nat | k < PACKET_NUM :: GetBit(s.progress, k) <==> AllHave(accepted, k))
                  && forall a | a in s.unfinished :: a in s.pending || a in s.requested)
            && (ret == MDF_ERR_MUPGRADE_FIRMWARE_INCOMPLETE <==> s.requested != [])
            && (ret == MDF_ERR_MUPGRADE_SEND_PACKET_LOSS <==> s.unfinished != [] && s.requested == [])
  {
    var r0 := r.(requested := []);
    var d := Drain(r0, drained);
    DrainAccounts(r0, drained);
    DrainKeepsRequested(r0, drained);
    if d.unfinished != [] {
      NoDupConcat(d.unfinished, d.successed);
      AttemptsMeaning(t, BeginRequest(d), attempts);
    }
  }

  lemma AttemptsMeaning(t: Transfer, b: Root, attempts: seq<seq<Msg>>)
    requires t.Valid() && b.progress == Ones(BITMAP_SIZE) && b.requested == [] && Covers(b)
    requires forall ms | ms in attempts :: AllReportsOk(t, ms) && AllReadable(ms)
    ensures var s := Attempts(b, attempts);
            var accepted := AllAccepted(b, attempts);
            && s.requested == Sources(accepted)
            && (forall m | m in accepted :: ReportOk(t, m.report) && !m.Complete())
            && (forall k: nat | k < PACKET_NUM :: GetBit(s.progress, k) <==> AllHave(accepted, k))
            && (forall a | a in s.unfinished :: a in s.pending || a in s.requested)
            && (RequestResult(s) == MDF_OK <==> s.unfinished == [] && s.requested == [])
            && (RequestResult(s) == MDF_ERR_MUPGRADE_FIRMWARE_INCOMPLETE <==> s.requested != [])
            && (RequestResult(s) == MDF_ERR_MUPGRADE_SEND_PACKET_LOSS <==> s.unfinished != [] && s.requested == [])
  {
    var accepted := AllAccepted(b, attempts);
    AttemptsRequested(b, attempts);
    AttemptsCover(t, b, attempts);
    AllAcceptedReportsOk(t, b, attempts);
    var s := Attempts(b, attempts);
    forall k: nat | k < PACKET_NUM ensures GetBit(s.progress, k) <==> AllHave(accepted, k) {
      OnesAreSet(BITMAP_SIZE, k);
      AttemptsProgress(t, b, attempts, k);
    }
    FullIffNoneAccepted(t, s, accepted);
    if s.requested == [] {
      EmptyIffCovered(s);
    }
  }

  lemma EmptyIffCovered(r: Root)
    requires Covers(r) && r.requested == []
    ensures r.unfinished == [] <==> r.pending == []
  {
    if r.unfinished != [] {
      assert r.unfinished[0] in r.unfinished;
    }
    if r.pending != [] {
      assert r.pending[0] in r.pending;
    }
  }

  lemma FullIffNoneAccepted(t: Transfer, s: Root, accepted: seq<Msg>)
    requires t.Valid() && |s.progress| == BITMAP_SIZE
    requires forall k: nat | k < PACKET_NUM :: GetBit(s.progress, k) <==> AllHave(accepted, k)
    requires s.requested == Sources(accepted)
    requires forall m | m in accepted :: ReportOk(t, m.report) && !m.Complete()
    ensures s.progress == Ones(BITMAP_SIZE) <==> s.requested == []
  {
    if accepted != [] {
      var m := accepted[0];
      var k := ReportShowsGap(t, m);
      assert !GetBit(s.progress, k) by { assert m in accepted && !AllHave(accepted, k); }
      OnesAreSet(BITMAP_SIZE, k);
    } else {
      FullIffAllOnes(s.progress);
      forall j: nat | j < PACKET_NUM ensures j in Members(s.progress) {
        assert AllHave(accepted, j);
      }
    }
  }

  lemma {:induction false} DrainKeepsRequested(r: Root, ms: seq<Msg>)
    ensures Drain(r, ms).requested == r.requested
    decreases |ms|
  {
    if ms != [] && r.unfinished != [] {
      DrainKeepsRequested(DrainStep(r, ms[0]), ms[1..]);
    }
  }

  // ---------- the packets of one round ----------

  /** The packets from k on whose bit is clear, in order. */
  ghost function ClearFrom(progress: seq<Byte>, packetNum: nat, k: nat): (s: seq<nat>)
    requires packetNum <= 8 * |progress|
    ensures forall j: nat :: j in s <==> k <= j < packetNum && !GetBit(progress, j)
    decreases packetNum - k
  {
    if k >= packetNum then []
    else if GetBit(progress, k) then ClearFrom(progress, packetNum, k + 1)
    else [k] + ClearFrom(progress, packetNum, k + 1)
  }

  ghost predicate Increasing(s: seq<nat>) {
    forall i, j | 0 <= i < j < |s| :: s[i] < s[j]
  }

  lemma SmallerFirst(k: nat, s: seq<nat>)
    requires Increasing(s) && forall j | j in s :: k < j
    ensures Increasing([k] + s)
  {
    var all := [k] + s;
    forall i, j | 0 <= i < j < |all| ensures all[i] < all[j] {
      assert all[j] == s[j - 1] && s[j - 1] in s;
      assert i > 0 ==> all[i] == s[i - 1];
    }
  }

  lemma {:induction false} ClearFromIncreasing(progress: seq<Byte>, packetNum: nat, k: nat)
    requires packetNum <= 8 * |progress|
    ensures Increasing(ClearFrom(progress, packetNum, k))
    decreases packetNum - k
  {
    if k < packetNum {
      ClearFromIncreasing(progress, packetNum, k + 1);
      SmallerFirst(k, ClearFrom(progress, packetNum, k + 1));
    }
  }

  ghost function Numbers(sent: seq<Sent>): (s: seq<nat>)
    ensures |s| == |sent|
  {
    seq(|sent|, i requires 0 <= i < |sent| => sent[i].seqNo)
  }

  /** One turn of the loop moves the next clear packet from the list of those to come to the
      list of those sent. */
  lemma TurnNumbers(r: Root, targets: Targets, round: Round, packetNum: nat, k: nat, sent: seq<Sent>)
    requires |r.progress| == BITMAP_SIZE && k < packetNum <= PACKET_NUM
    ensures var (m, now, exit) := PacketStep(r, targets, round, k);
            !exit ==> Numbers(sent + now) + ClearFrom(r.progress, packetNum, k + 1) ==
                      Numbers(sent) + ClearFrom(r.progress, packetNum, k)
    ensures PacketStep(r, targets, round, k).2 ==> PacketStep(r, targets, round, k).1 == []
  {
    var (m, now, exit) := PacketStep(r, targets, round, k);
    var rest := ClearFrom(r.progress, packetNum, k + 1);
    if GetBit(r.progress, k) {
      assert sent + now == sent;
    } else if !exit {
      NumbersAppend(sent, now[0], rest);
      assert now == [now[0]];
    }
  }

  lemma NumbersAppend(sent: seq<Sent>, x: Sent, rest: seq<nat>)
    ensures Numbers(sent + [x]) + rest == Numbers(sent) + ([x.seqNo] + rest)
  {
  }

  /** The packet loop goes through the clear packets in order, each of them once; unless the
      round is cut short or runs out of devices it sends them all. */
  lemma {:induction false} PacketsSent(r: Root, targets: Targets, round: Round, packetNum: nat, k: nat, sent: seq<Sent>)
    requires |r.progress| == BITMAP_SIZE && packetNum <= PACKET_NUM
    ensures var (s, all, exit) := SendPackets(r, targets, round, packetNum, k, sent);
            && Numbers(all) <= Numbers(sent) + ClearFrom(r.progress, packetNum, k)
            && (!exit && s.requested != [] && round.stopAt.None? ==>
                  Numbers(all) == Numbers(sent) + ClearFrom(r.progress, packetNum, k))
    decreases packetNum - k
  {
    if r.requested == [] || k >= packetNum || round.StopsAt(k) {
    } else {
      var (m, now, exit) := PacketStep(r, targets, round, k);
      TurnNumbers(r, targets, round, packetNum, k, sent);
      if exit {
        assert sent + now == sent;
      } else {
        PacketsSent(m, targets, round, packetNum, k + 1, sent + now);
      }
    }
  }

  /** Round coverage at the root: a packet is sent exactly if one of the requested devices
      reported it as missing. */
  lemma RoundSendsUnion(t: Transfer, r: Root, targets: Targets, round: Round)
    requires t.Valid() && |r.progress| == BITMAP_SIZE && NoDup(r.unfinished + r.successed) && round.Valid()
    requires forall ms | ms in round.attempts :: AllReportsOk(t, ms)
    ensures var (q, ret) := RequestStatus(r, round.drained, round.attempts);
            var (s, sent, exit) := SendPackets(q, targets, round, t.PacketNum(), 0, []);
            var accepted := RoundAccepted(r, round.drained, round.attempts);
            && q.requested == Sources(accepted)
            && (ret != MDF_OK && !exit && s.requested != [] && round.stopAt.None? ==>
                  forall k: nat :: k in Numbers(sent) <==> k < t.PacketNum() && !AllHave(accepted, k))
  {
    RequestStatusMeaning(t, r, round.drained, round.attempts);
    var q := RequestStatus(r, round.drained, round.attempts).0;
    AllPacketsSent(q, targets, round, t.PacketNum());
  }

  lemma AllPacketsSent(q: Root, targets: Targets, round: Round, packetNum: nat)
    requires |q.progress| == BITMAP_SIZE && packetNum <= PACKET_NUM
    ensures var (s, sent, exit) := SendPackets(q, targets, round, packetNum, 0, []);
            !exit && s.requested != [] && round.stopAt.None? ==>
              forall k: nat :: k in Numbers(sent) <==> k < packetNum && !GetBit(q.progress, k)
  {
    PacketsSent(q, targets, round, packetNum, 0, []);
    assert Numbers([]) + ClearFrom(q.progress, packetNum, 0) == ClearFrom(q.progress, packetNum, 0);
  }

  /** The same for one packet, with the progress array in between. */
  lemma RoundSendsUnionAt(t: Transfer, r: Root, targets: Targets, round: Round, k: nat)
    requires t.Valid() && |r.progress| == BITMAP_SIZE && NoDup(r.unfinished + r.successed) && round.Valid()
    requires forall ms | ms in round.attempts :: AllReportsOk(t, ms)
    requires k < t.PacketNum()
    ensures var (q, ret) := RequestStatus(r, round.drained, round.attempts);
            ret != MDF_OK ==> (GetBit(q.progress, k) <==> AllHave(RoundAccepted(r, round.drained, round.attempts), k))
    ensures var q := RequestStatus(r, round.drained, round.attempts).0;
            var (s, sent, exit) := SendPackets(q, targets, round, t.PacketNum(), 0, []);
            !exit && s.requested != [] && round.stopAt.None? ==> (k in Numbers(sent) <==> !GetBit(q.progress, k))
  {
    RequestStatusMeaning(t, r, round.drained, round.attempts);
    AllPacketsSent(RequestStatus(r, round.drained, round.attempts).0, targets, round, t.PacketNum());
  }

  // ---------- nobody is forgotten while packets are sent ----------

  /** Everybody unfinished is still to answer or requested. */
  ghost predicate NobodyForgotten(r: Root) {
    NoDup(r.unfinished) && forall a | a in r.unfinished :: a in r.pending || a in r.requested
  }

  lemma OthersStay(list: seq<Addr>, x: Addr, a: Addr)
    requires a in list && a != x
    ensures a in RemoveFirst(list, x)
  {
    RemoveFirstContents(list, x);
    assert a in multiset(list);
    assert a in multiset(RemoveFirst(list, x));
  }

  lemma MidForgetsNobody(r: Root, m: Msg)
    requires NobodyForgotten(r) && 0 < m.report.totalSize
    ensures NobodyForgotten(MidStep(r, m))
  {
    if m.Stopped() {
      NoDupRemove(r.unfinished, m.src);
      forall a | a in RemoveFirst(r.unfinished, m.src) && a !in r.pending ensures a in RemoveFirst(r.requested, m.src) {
        OthersStay(r.requested, m.src, a);
      }
    }
  }

  lemma {:induction false} DrainMidForgetsNobody(r: Root, ms: seq<Msg>)
    requires NobodyForgotten(r) && forall m | m in ms :: 0 < m.report.totalSize
    ensures NobodyForgotten(DrainMid(r, ms).0)
    decreases |ms|
  {
    if ms != [] {
      assert ms[0] in ms;
      MidForgetsNobody(r, ms[0]);
      DrainMidForgetsNobody(MidStep(r, ms[0]), ms[1..]);
    }
  }

  ghost predicate MidsNotEmpty(round: Round) {
    forall ms, m | ms in round.mids && m in ms :: 0 < m.report.totalSize
  }

  /** While packets are sent, whatever is read in between, every unfinished device stays among
      those still to answer or those requested. */
  lemma {:induction false} SendForgetsNobody(r: Root, targets: Targets, round: Round, packetNum: nat, k: nat, sent: seq<Sent>)
    requires |r.progress| == BITMAP_SIZE && packetNum <= PACKET_NUM && NobodyForgotten(r) && MidsNotEmpty(round)
    ensures NobodyForgotten(SendPackets(r, targets, round, packetNum, k, sent).0)
    decreases packetNum - k
  {
    if r.requested != [] && k < packetNum && !round.StopsAt(k) {
      var (m, now, exit) := PacketStep(r, targets, round, k);
      if !GetBit(r.progress, k) && round.unreadable != Some(k) {
        assert round.Mid(k) != [] ==> round.Mid(k) in round.mids;
        DrainMidForgetsNobody(r, round.Mid(k));
      }
      if !exit {
        SendForgetsNobody(m, targets, round, packetNum, k + 1, sent + now);
      }
    }
  }

  /** Over a whole round. */
  lemma RoundForgetsNobody(t: Transfer, r: Root, targets: Targets, round: Round)
    requires t.Valid() && |r.progress| == BITMAP_SIZE && NoDup(r.unfinished + r.successed) && round.Valid()
    requires (forall ms | ms in round.attempts :: AllReportsOk(t, ms)) && MidsNotEmpty(round)
    ensures NobodyForgotten(RoundStep(r, targets, round, t.PacketNum()).0)
  {
    RequestStatusMeaning(t, r, round.drained, round.attempts);
    RequestAccounts(r, round.drained, round.attempts);
    var (q, ret) := RequestStatus(r, round.drained, round.attempts);
    NoDupConcat(q.unfinished, q.successed);
    if ret != MDF_OK {
      SendForgetsNobody(q, targets, round, t.PacketNum(), 0, []);
    }
  }
}
