/** mupgrade_root.c as it runs: result lists that shrink and grow, a progress array ANDed in
    place and the loops around the message queue, each proved against `UpgradeRoot`. */
module UpgradeSender {
  import opened Prelude
  import opened Bitmap
  import opened Addresses
  import opened UpgradeNode
  import opened UpgradeRoot

  class Sender {
    var unfinished: seq<Addr>
    var successed: seq<Addr>
    var requested: seq<Addr>
    var pending: seq<Addr>
    const progress: array<Byte>

    ghost predicate Valid()
      reads this, progress
    {
      progress.Length == BITMAP_SIZE
    }

    ghost function State(): Root
      reads this, progress
    {
      Root(unfinished, successed, requested, pending, progress[..])
    }

    constructor (targets: seq<Addr>)
      ensures Valid() && fresh(this) && fresh(progress)
      ensures State().unfinished == targets && State().successed == []
    {
      unfinished, successed, requested, pending := targets, [], [], [];
      progress := new Byte[BITMAP_SIZE](_ => 0);
    }

    /** Moves an address from the unfinished to the successful ones. */
    method Promote(a: Addr) returns (moved: bool)
      modifies this`unfinished, this`successed
      ensures State() == Succeed(old(State()), a)
      ensures moved <==> a in old(unfinished)
    {
      moved := a in unfinished;
      if moved {
        unfinished := RemoveFirst(unfinished, a);
        successed := successed + [a];
      }
    }

    /** The first loop of mupgrade_request_status. */
    method DrainQueue(drained: seq<Msg>) returns (done: bool)
      requires Valid() && unfinished != []
      modifies this`unfinished, this`successed
      ensures State() == Drain(old(State()), drained)
      ensures done <==> unfinished == []
    {
      var i := 0;
      while i < |drained|
        invariant i <= |drained| && unfinished != []
        invariant Drain(State(), drained[i..]) == Drain(old(State()), drained)
      {
        var m := drained[i];
        assert drained[i..][0] == m && drained[i..][1..] == drained[i + 1..];
        i := i + 1;
        if m.Complete() {
          var moved := Promote(m.src);
          if !moved {
            continue;
          }
        } else if m.Stopped() {
          unfinished := RemoveFirst(unfinished, m.src);
        }
        if unfinished == [] {
          return true;
        }
      }
      return false;
    }

    /** One answer to the status request. */
    method HandleResponse(m: Msg)
      requires Valid() && m.Readable()
      modifies this, progress
      ensures Valid() && State() == ResponseStep(old(State()), m)
    {
      if m.Stopped() {
        unfinished := RemoveFirst(unfinished, m.src);
        pending := RemoveFirst(pending, m.src);
        return;
      }
      if m.src !in pending {
        return;
      }
      pending := RemoveFirst(pending, m.src);
      if !m.Complete() {
        requested := requested + [m.src];
      }
      if m.report.writtenSize == 0 {
        Fill(progress, 0);
        assert progress[..] == Zeros(BITMAP_SIZE);
      } else if m.Complete() {
        var _ := Promote(m.src);
      } else {
        AndInto(progress, m.report.bitmap);
      }
    }

    /** The answers to one request, until all have answered or a wait times out. */
    method CollectResponses(ms: seq<Msg>)
      requires Valid() && AllReadable(ms)
      modifies this, progress
      ensures Valid() && State() == Collect(old(State()), ms)
    {
      var i := 0;
      while pending != [] && i < |ms|
        invariant i <= |ms| && Valid()
        invariant Collect(State(), ms[i..]) == Collect(old(State()), ms)
        decreases |ms| - i
      {
        assert ms[i] in ms && ms[i..][0] == ms[i] && ms[i..][1..] == ms[i + 1..];
        HandleResponse(ms[i]);
        i := i + 1;
      }
    }

    /** mupgrade_request_status */
    method RequestStatus(drained: seq<Msg>, attempts: seq<seq<Msg>>) returns (ret: int)
      requires Valid() && unfinished != []
      requires |attempts| <= REQUEST_COUNT && forall ms | ms in attempts :: AllReadable(ms)
      modifies this, progress
      ensures Valid() && (State(), ret) == UpgradeRoot.RequestStatus(old(State()), drained, attempts)
    {
      requested := [];
      var done := DrainQueue(drained);
      if done {
        return MDF_OK;
      }
      pending := unfinished;
      Fill(progress, ALL_ONES);
      assert progress[..] == Ones(BITMAP_SIZE);
      ghost var b := State();
      var i := 0;
      while i < |attempts| && pending != []
        invariant i <= |attempts| && Valid()
        invariant Attempts(State(), attempts[i..]) == Attempts(b, attempts)
      {
        assert attempts[i] in attempts;
        assert attempts[i..][0] == attempts[i] && attempts[i..][1..] == attempts[i + 1..];
        CollectResponses(attempts[i]);
        i := i + 1;
      }
      ret := MDF_OK;
      if pending != [] {
        ret := MDF_ERR_MUPGRADE_SEND_PACKET_LOSS;
      }
      var full := IsFull(progress[..]);
      if !full {
        ret := MDF_ERR_MUPGRADE_FIRMWARE_INCOMPLETE;
      }
    }

    /** The queue is emptied before a packet is sent. */
    method DrainWhileSending(ms: seq<Msg>) returns (exit: bool)
      requires Valid()
      modifies this`unfinished, this`successed, this`requested
      ensures Valid() && (State(), exit) == DrainMid(old(State()), ms)
    {
      var i := 0;
      while i < |ms|
        invariant i <= |ms|
        invariant DrainMid(State(), ms[i..]) == DrainMid(old(State()), ms)
      {
        var m := ms[i];
        assert ms[i..][0] == m && ms[i..][1..] == ms[i + 1..];
        i := i + 1;
        if m.report.writtenSize == 0 && m.Complete() {
          if m.src !in unfinished {
            continue;
          }
          unfinished := RemoveFirst(unfinished, m.src);
          if m.src !in requested {
            continue;
          }
          requested := RemoveFirst(requested, m.src);
          successed := successed + [m.src];
        } else if m.Stopped() {
          unfinished := RemoveFirst(unfinished, m.src);
          requested := RemoveFirst(requested, m.src);
        }
        if unfinished == [] {
          return true;
        }
      }
      return false;
    }

    /** One turn of the packet loop. */
    method SendPacket(targets: Targets, round: Round, k: nat) returns (sent: seq<Sent>, exit: bool)
      requires Valid() && k < PACKET_NUM
      modifies this`unfinished, this`successed, this`requested
      ensures Valid() && (State(), sent, exit) == PacketStep(old(State()), targets, round, k)
    {
      sent, exit := [], false;
      if !GetBit(progress[..], k) {
        if round.unreadable == Some(k) {
          return [], true;
        }
        exit := DrainWhileSending(round.Mid(k));
        if !exit {
          sent := [Sent(k, SendTo(targets, successed, requested))];
        }
      }
    }

    /** The packet loop of one round. */
    method SendPackets(targets: Targets, round: Round, packetNum: nat) returns (sent: seq<Sent>, exit: bool)
      requires Valid() && packetNum <= PACKET_NUM
      modifies this`unfinished, this`successed, this`requested
      ensures Valid() && (State(), sent, exit) == UpgradeRoot.SendPackets(old(State()), targets, round, packetNum, 0, [])
    {
      var k := 0;
      sent, exit := [], false;
      while requested != [] && k < packetNum && !round.StopsAt(k)
        invariant Valid() && !exit
        invariant UpgradeRoot.SendPackets(State(), targets, round, packetNum, k, sent) ==
                  UpgradeRoot.SendPackets(old(State()), targets, round, packetNum, 0, [])
        decreases packetNum - k
      {
        var now;
        now, exit := SendPacket(targets, round, k);
        sent := sent + now;
        if exit {
          break;
        }
        k := k + 1;
      }
    }

    /** One round of mupgrade_firmware_send. */
    method SendRound(targets: Targets, round: Round, packetNum: nat) returns (sent: seq<Sent>, last: bool)
      requires Valid() && unfinished != [] && packetNum <= PACKET_NUM && round.Valid()
      modifies this, progress
      ensures Valid() && (State(), sent, last) == RoundStep(old(State()), targets, round, packetNum)
    {
      var status := RequestStatus(round.drained, round.attempts);
      if status == MDF_OK {
        return [], true;
      }
      sent, last := SendPackets(targets, round, packetNum);
      last := last || round.stopAt.Some?;
    }

    /** The rounds of mupgrade_firmware_send, as many as there are or as CONFIG_MUPGRADE_RETRY_COUNT
        allows, from the point where the target list is set up. */
    method FirmwareSend(targets: Targets, rounds: seq<Round>, packetNum: nat) returns (ret: int, sent: seq<Sent>)
      requires Valid() && packetNum <= PACKET_NUM
      requires forall i | 0 <= i < |rounds| :: rounds[i].Valid()
      modifies this, progress
      ensures Valid() && (State(), sent) == SendRounds(old(State()), targets, rounds, packetNum, [])
      ensures ret == SendResult(State())
      ensures ret == MDF_OK <==> unfinished == []
    {
      var i := 0;
      sent := [];
      while i < |rounds| && unfinished != []
        invariant i <= |rounds| && Valid()
        invariant SendRounds(State(), targets, rounds[i..], packetNum, sent) ==
                  SendRounds(old(State()), targets, rounds, packetNum, [])
      {
        assert rounds[i].Valid() && rounds[i..][0] == rounds[i] && rounds[i..][1..] == rounds[i + 1..];
        var now, last := SendRound(targets, rounds[i], packetNum);
        sent := sent + now;
        if last {
          break;
        }
        i := i + 1;
      }
      ret := if unfinished != [] then MDF_ERR_MUPGRADE_FIRMWARE_INCOMPLETE else MDF_OK;
    }
  }
}
