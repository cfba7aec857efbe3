/** How the rounds of mupgrade_firmware_send end: because nobody is left, because the application
    stops it, or because a packet cannot be read. */
module UpgradeEnding {
  import opened Prelude
  import opened Bitmap
  import opened Addresses
  import opened UpgradeNode
  import opened UpgradeRoot
  import opened UpgradeAccounting
  import opened UpgradeCoverage

  /** When mupgrade_firmware_stop takes effect before packet `until`, the clear packets before it
      are sent and no others, unless nobody is left to send them to. */
  lemma PacketsUntilStop(r: Root, targets: Targets, round: Round, packetNum: nat, until: nat)
    requires |r.progress| == BITMAP_SIZE && until <= packetNum <= PACKET_NUM && round.stopAt == Some(until)
    ensures var (s, all, exit) := SendPackets(r, targets, round, packetNum, 0, []);
            && Numbers(all) <= ClearFrom(r.progress, until, 0)
            && (!exit && s.requested != [] ==> Numbers(all) == ClearFrom(r.progress, until, 0))
  {
    SentBefore(r, targets, round, packetNum, 0, [], until);
    AllBeforeStop(r, targets, round, packetNum, 0, [], until);
    assert Numbers([]) + ClearFrom(r.progress, until, 0) == ClearFrom(r.progress, until, 0);
  }

  lemma {:induction false} AllBeforeStop(r: Root, targets: Targets, round: Round, packetNum: nat, k: nat, sent: seq<Sent>, until: nat)
    requires |r.progress| == BITMAP_SIZE && k <= until <= packetNum <= PACKET_NUM && round.stopAt == Some(until)
    ensures var (s, all, exit) := SendPackets(r, targets, round, packetNum, k, sent);
            !exit && s.requested != [] ==> Numbers(all) == Numbers(sent) + ClearFrom(r.progress, until, k)
    decreases packetNum - k
  {
    if r.requested != [] && k < until {
      var (m, now, exit) := PacketStep(r, targets, round, k);
      SendPacketsTurn(r, targets, round, packetNum, k, sent);
      if !exit {
        TurnNumbers(r, targets, round, until, k, sent);
        AllBeforeStop(m, targets, round, packetNum, k + 1, sent + now, until);
      }
    }
  }

  /** The queue is read to its end unless nobody is left, and then the turn ends at once. */
  lemma {:induction false} ExitIff(r: Root, ms: seq<Msg>)
    requires forall m | m in ms :: 0 < m.report.totalSize
    ensures var (s, exit) := DrainMid(r, ms); exit <==> ms != [] && s.unfinished == []
    decreases |ms|
  {
    if ms != [] {
      assert ms[0] in ms;
      ExitIff(MidStep(r, ms[0]), ms[1..]);
    }
  }

  /** Reports of an empty firmware are the ones for which the completion test while sending is true:
      their sender leaves the unfinished devices, but only one that is requested is successed. */
  lemma EmptyFirmware(r: Root, m: Msg)
    requires NoDup(r.unfinished) && NoDup(r.requested) && m.report.writtenSize == m.report.totalSize == 0
    ensures var s := MidStep(r, m);
            var (d, exit) := DrainMid(r, [m]);
            && d == s && m.src !in s.unfinished
            && (if m.src in r.unfinished && m.src in r.requested then
                  && m.src !in s.requested && s.successed == r.successed + [m.src]
                  && (exit <==> s.unfinished == [])
                else
                  && s.requested == r.requested && s.successed == r.successed && !exit)
  {
    NoDupRemove(r.unfinished, m.src);
    NoDupRemove(r.requested, m.src);
    assert [m][1..] == [];
  }

  /** A round after which nobody is left, in which a packet cannot be read, or which has been
      stopped is the last one. */
  lemma RoundIsLast(r: Root, targets: Targets, rounds: seq<Round>, packetNum: nat, sent: seq<Sent>)
    requires |r.progress| == BITMAP_SIZE && packetNum <= PACKET_NUM && rounds != [] && r.unfinished != []
    requires rounds[0].Valid()
    requires forall i | 0 <= i < |rounds| :: rounds[i].Valid()
    requires var (q, ret) := RequestStatus(r, rounds[0].drained, rounds[0].attempts);
             var (s, now, exit) := SendPackets(q, targets, rounds[0], packetNum, 0, []);
             ret == MDF_OK || exit || rounds[0].stopAt.Some?
    ensures var (q, ret) := RequestStatus(r, rounds[0].drained, rounds[0].attempts);
            var (s, now, exit) := SendPackets(q, targets, rounds[0], packetNum, 0, []);
            SendRounds(r, targets, rounds, packetNum, sent) == if ret == MDF_OK then (q, sent) else (s, sent + now)
  {
    assert sent + [] == sent;
  }

  /** Any other round is followed by the next one, as long as somebody is unfinished. */
  lemma RoundGoesOn(r: Root, targets: Targets, rounds: seq<Round>, packetNum: nat, sent: seq<Sent>)
    requires |r.progress| == BITMAP_SIZE && packetNum <= PACKET_NUM && rounds != [] && r.unfinished != []
    requires rounds[0].Valid()
    requires forall i | 0 <= i < |rounds| :: rounds[i].Valid()
    requires var (q, ret) := RequestStatus(r, rounds[0].drained, rounds[0].attempts);
             var (s, now, exit) := SendPackets(q, targets, rounds[0], packetNum, 0, []);
             ret != MDF_OK && !exit && rounds[0].stopAt.None?
    ensures var (q, ret) := RequestStatus(r, rounds[0].drained, rounds[0].attempts);
            var (s, now, exit) := SendPackets(q, targets, rounds[0], packetNum, 0, []);
            && |s.progress| == BITMAP_SIZE
            && SendRounds(r, targets, rounds, packetNum, sent) == SendRounds(s, targets, rounds[1..], packetNum, sent + now)
  {
  }

  /** A packet that cannot be read ends the packet loop, with nothing sent from it on. */
  lemma UnreadableEnds(r: Root, targets: Targets, round: Round, packetNum: nat, bad: nat)
    requires |r.progress| == BITMAP_SIZE && bad < packetNum <= PACKET_NUM && !GetBit(r.progress, bad)
    requires round.unreadable == Some(bad) && round.stopAt.None?
    ensures var (s, all, exit) := SendPackets(r, targets, round, packetNum, 0, []);
            && (s.requested != [] ==> exit) && Numbers(all) <= ClearFrom(r.progress, bad, 0)
  {
    UnreadableExits(r, targets, round, packetNum, 0, [], bad);
    SentBefore(r, targets, round, packetNum, 0, [], bad);
    assert Numbers([]) + ClearFrom(r.progress, bad, 0) == ClearFrom(r.progress, bad, 0);
  }

  lemma {:induction false} UnreadableExits(r: Root, targets: Targets, round: Round, packetNum: nat, k: nat, sent: seq<Sent>, bad: nat)
    requires |r.progress| == BITMAP_SIZE && k <= bad < packetNum <= PACKET_NUM && !GetBit(r.progress, bad)
    requires round.unreadable == Some(bad) && round.stopAt.None?
    ensures var (s, all, exit) := SendPackets(r, targets, round, packetNum, k, sent); s.requested != [] ==> exit
    decreases packetNum - k
  {
    if r.requested != [] && k < bad {
      var (m, now, exit) := PacketStep(r, targets, round, k);
      if !exit {
        UnreadableExits(m, targets, round, packetNum, k + 1, sent + now, bad);
      }
    }
  }

  /** The loop does not go past `limit`. */
  ghost predicate EndsAt(r: Root, round: Round, packetNum: nat, limit: nat)
    requires |r.progress| == BITMAP_SIZE
  {
    limit >= packetNum || round.StopsAt(limit) || (limit < PACKET_NUM && !GetBit(r.progress, limit) && round.unreadable == Some(limit))
  }

  /** Then only clear packets before that are sent. */
  lemma {:induction false} SentBefore(r: Root, targets: Targets, round: Round, packetNum: nat, k: nat, sent: seq<Sent>, limit: nat)
    requires |r.progress| == BITMAP_SIZE && k <= limit <= packetNum <= PACKET_NUM && EndsAt(r, round, packetNum, limit)
    ensures Numbers(SendPackets(r, targets, round, packetNum, k, sent).1) <= Numbers(sent) + ClearFrom(r.progress, limit, k)
    decreases packetNum - k
  {
    if r.requested != [] && k < packetNum && !round.StopsAt(k) {
      var (m, now, exit) := PacketStep(r, targets, round, k);
      SendPacketsTurn(r, targets, round, packetNum, k, sent);
      if exit {
        assert now == [] && sent + now == sent;
      } else {
        TurnNumbers(r, targets, round, limit, k, sent);
        SentBefore(m, targets, round, packetNum, k + 1, sent + now, limit);
      }
    }
  }

  /** mupgrade_firmware_send returns MDF_OK exactly if every target has got off the list, and then
      each of them is successed or has sent a stop report. */
  lemma SendResultMeaning(r: Root, targets: Targets, rounds: seq<Round>, packetNum: nat)
    requires NoDup(r.unfinished + r.successed) && |r.progress| == BITMAP_SIZE && packetNum <= PACKET_NUM
    requires forall i | 0 <= i < |rounds| :: rounds[i].Valid()
    requires NonEmptyImages(RunMessages(rounds))
    ensures var s := SendRounds(r, targets, rounds, packetNum, []).0;
            && (SendResult(s) == MDF_OK <==> forall a | a in r.unfinished :: a !in s.unfinished)
            && (SendResult(s) == MDF_OK ==>
                  forall a | a in r.unfinished :: a in s.successed || StoppedFrom(RunMessages(rounds), a))
  {
    var s := SendRounds(r, targets, rounds, packetNum, []).0;
    SendAccounts(r, targets, rounds, packetNum, []);
    AccountsMeaning(r, s, RunMessages(rounds));
    NobodyLeft(s.unfinished);
  }
}
