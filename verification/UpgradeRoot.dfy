/** The root's side of the upgrade (mupgrade_root.c) as functions on its address lists and its
    progress array. What xQueueReceive yields is an argument: `drained` and each element of
    `attempts` list the messages received before a wait times out. `UpgradeSender` is the
    imperative code that these functions specify. */
module UpgradeRoot {
  import opened Prelude
  import opened Bitmap
  import opened Addresses
  import opened UpgradeNode

  /** mupgrade_queue_t */
  datatype Msg = Msg(src: Addr, report: Report) {
    predicate Complete() {
      report.writtenSize == report.totalSize
    }

    predicate Stopped() {
      report.errorCode == MDF_ERR_MUPGRADE_STOP
    }

    /** A report between the two extremes comes with its bitmap. */
    predicate Readable() {
      report.writtenSize != 0 && !Complete() ==> |report.bitmap| == BITMAP_SIZE
    }

    /** The device has packet k, as the root reads the report. */
    ghost predicate Has(k: nat) {
      report.writtenSize != 0 && k < 8 * |report.bitmap| && GetBit(report.bitmap, k)
    }
  }

  /** mupgrade_result_t, request_addrs and progress_array. */
  datatype Root = Root(
    unfinished: seq<Addr>,
    successed: seq<Addr>,
    requested: seq<Addr>,
    pending: seq<Addr>,
    progress: seq<Byte>)

  predicate AllReadable(ms: seq<Msg>) {
    forall m | m in ms :: m.Readable()
  }

  // ---------- one message ----------

  function Succeed(r: Root, a: Addr): (s: Root) {
    if a in r.unfinished then
      r.(unfinished := RemoveFirst(r.unfinished, a), successed := r.successed + [a])
    else
      r
  }

  /** Before the request: devices that have finished or stopped in the meantime. */
  function DrainStep(r: Root, m: Msg): (s: Root)
    ensures s.progress == r.progress
  {
    if m.Complete() then Succeed(r, m.src)
    else if m.Stopped() then r.(unfinished := RemoveFirst(r.unfinished, m.src))
    else r
  }

  /** An answer to the status request. */
  function ResponseStep(r: Root, m: Msg): (s: Root)
    requires m.Readable() && |r.progress| == BITMAP_SIZE
    ensures |s.progress| == BITMAP_SIZE
  {
    if m.Stopped() then
      r.(unfinished := RemoveFirst(r.unfinished, m.src), pending := RemoveFirst(r.pending, m.src))
    else if m.src !in r.pending then
      r
    else
      var r := r.(pending := RemoveFirst(r.pending, m.src),
                  requested := if m.Complete() then r.requested else r.requested + [m.src]);
      if m.report.writtenSize == 0 then r.(progress := Zeros(BITMAP_SIZE))
      else if m.Complete() then Succeed(r, m.src)
      else r.(progress := And(r.progress, m.report.bitmap))
  }

  /** A message found while packets are being sent. The completion test of the code asks for
      written_size == 0 as well. */
  function MidStep(r: Root, m: Msg): (s: Root)
    ensures s.progress == r.progress
  {
    if m.report.writtenSize == 0 && m.Complete() then
      if m.src !in r.unfinished then r
      else
        var r := r.(unfinished := RemoveFirst(r.unfinished, m.src));
        if m.src !in r.requested then r
        else r.(requested := RemoveFirst(r.requested, m.src), successed := r.successed + [m.src])
    else if m.Stopped() then
      r.(unfinished := RemoveFirst(r.unfinished, m.src), requested := RemoveFirst(r.requested, m.src))
    else
      r
  }

  // ---------- mupgrade_request_status ----------

  function Drain(r: Root, ms: seq<Msg>): (s: Root)
    ensures s.progress == r.progress
    decreases |ms|
  {
    if ms == [] || r.unfinished == [] then r else Drain(DrainStep(r, ms[0]), ms[1..])
  }

  /** One request and the answers that arrive in time. */
  function Collect(r: Root, ms: seq<Msg>): (s: Root)
    requires AllReadable(ms) && |r.progress| == BITMAP_SIZE
    ensures |s.progress| == BITMAP_SIZE
    decreases |ms|
  {
    if ms == [] || r.pending == [] then r else Collect(ResponseStep(r, ms[0]), ms[1..])
  }

  const REQUEST_COUNT := 3

  function Attempts(r: Root, attempts: seq<seq<Msg>>): (s: Root)
    requires (forall ms | ms in attempts :: AllReadable(ms)) && |r.progress| == BITMAP_SIZE
    ensures |s.progress| == BITMAP_SIZE
    decreases |attempts|
  {
    if attempts == [] || r.pending == [] then r else Attempts(Collect(r, attempts[0]), attempts[1..])
  }

  function RequestResult(r: Root): int {
    if r.progress != Ones(|r.progress|) then MDF_ERR_MUPGRADE_FIRMWARE_INCOMPLETE
    else if r.pending != [] then MDF_ERR_MUPGRADE_SEND_PACKET_LOSS
    else MDF_OK
  }

  function BeginRequest(r: Root): (s: Root) {
    r.(pending := r.unfinished, progress := Ones(BITMAP_SIZE))
  }

  function RequestStatus(r: Root, drained: seq<Msg>, attempts: seq<seq<Msg>>): (s: (Root, int))
    requires |attempts| <= REQUEST_COUNT && (forall ms | ms in attempts :: AllReadable(ms))
    requires |r.progress| == BITMAP_SIZE
    ensures |s.0.progress| == BITMAP_SIZE
  {
    var d := Drain(r.(requested := []), drained);
    if d.unfinished == [] then (d, MDF_OK)
    else
      var c := Attempts(BeginRequest(d), attempts);
      (c, RequestResult(c))
  }

  // ---------- mupgrade_firmware_send ----------

  /** The queue is emptied before each packet; `true` means that nobody is left to upgrade. */
  function DrainMid(r: Root, ms: seq<Msg>): (s: (Root, bool))
    ensures s.0.progress == r.progress
    ensures s.1 ==> s.0.unfinished == []
    decreases |ms|
  {
    if ms == [] then (r, false)
    else
      var m := ms[0];
      var s := MidStep(r, m);
      var skips := m.report.writtenSize == 0 && m.Complete() && (m.src !in r.unfinished || m.src !in r.requested);
      if !skips && s.unfinished == [] then (s, true) else DrainMid(s, ms[1..])
  }

  /** Whom the caller asked for: a list of addresses, MWIFI_ADDR_ANY or MWIFI_ADDR_BROADCAST. */
  datatype Targets = List | Any | Broadcast

  datatype Destination = Everyone | EveryoneButRoot | Listed(addrs: seq<Addr>)

  function SendTo(targets: Targets, successed: seq<Addr>, requested: seq<Addr>): (d: Destination) {
    if !targets.List? && |successed| < 2 then
      if targets.Broadcast? || |successed| == 1 then EveryoneButRoot else Everyone
    else
      Listed(requested)
  }

  datatype Sent = Sent(seqNo: nat, dest: Destination)

  /** What happens outside during one round: see RequestStatus; `mids[k]` is the queue when
      packet k is about to be sent and `stopAt` the packet before which
      mupgrade_firmware_stop takes effect, if it does; `unreadable` is the packet that cannot be
      read from the partition, if there is one. */
  datatype Round = Round(drained: seq<Msg>, attempts: seq<seq<Msg>>, mids: seq<seq<Msg>>,
                         stopAt: Option<nat>, unreadable: Option<nat>) {
    predicate Valid() {
      |attempts| <= REQUEST_COUNT && forall ms | ms in attempts :: AllReadable(ms)
    }

    predicate StopsAt(k: nat) {
      stopAt.Some? && stopAt.value <= k
    }

    function Mid(k: nat): seq<Msg> {
      if k < |mids| then mids[k] else []
    }
  }

  /** One turn of the packet loop: nothing for a packet that everybody has, otherwise the packet
      is read, the queue emptied and the packet sent; the flag says that the turn ends in
      `goto EXIT`. */
  function PacketStep(r: Root, targets: Targets, round: Round, k: nat): (s: (Root, seq<Sent>, bool))
    requires |r.progress| == BITMAP_SIZE && k < PACKET_NUM
    ensures s.0.progress == r.progress
  {
    if GetBit(r.progress, k) then (r, [], false)
    else if round.unreadable == Some(k) then (r, [], true)
    else
      var (m, exit) := DrainMid(r, round.Mid(k));
      (m, if exit then [] else [Sent(k, SendTo(targets, m.successed, m.requested))], exit)
  }

  /** The packet loop from packet k on, after `sent` has been sent. */
  function SendPackets(r: Root, targets: Targets, round: Round, packetNum: nat, k: nat, sent: seq<Sent>)
      : (s: (Root, seq<Sent>, bool))
    requires |r.progress| == BITMAP_SIZE && packetNum <= PACKET_NUM
    ensures s.0.progress == r.progress
    decreases packetNum - k
  {
    if r.requested == [] || k >= packetNum || round.StopsAt(k) then (r, sent, false)
    else
      var (m, now, exit) := PacketStep(r, targets, round, k);
      if exit then (m, sent + now, true) else SendPackets(m, targets, round, packetNum, k + 1, sent + now)
  }

  /** One round; the flag says that it is the last one. */
  function RoundStep(r: Root, targets: Targets, round: Round, packetNum: nat): (s: (Root, seq<Sent>, bool))
    requires |r.progress| == BITMAP_SIZE && packetNum <= PACKET_NUM && round.Valid()
    ensures |s.0.progress| == BITMAP_SIZE
  {
    var (q, ret) := RequestStatus(r, round.drained, round.attempts);
    if ret == MDF_OK then (q, [], true)
    else
      var (p, sent, exit) := SendPackets(q, targets, round, packetNum, 0, []);
      (p, sent, exit || round.stopAt.Some?)
  }

  function SendRounds(r: Root, targets: Targets, rounds: seq<Round>, packetNum: nat, sent: seq<Sent>): (s: (Root, seq<Sent>))
    requires |r.progress| == BITMAP_SIZE && packetNum <= PACKET_NUM
    requires forall i | 0 <= i < |rounds| :: rounds[i].Valid()
    decreases |rounds|
  {
    if rounds == [] || r.unfinished == [] then (r, sent)
    else
      var (m, now, last) := RoundStep(r, targets, rounds[0], packetNum);
      if last then (m, sent + now) else SendRounds(m, targets, rounds[1..], packetNum, sent + now)
  }

  function SendResult(r: Root): int {
    if r.unfinished != [] then MDF_ERR_MUPGRADE_FIRMWARE_INCOMPLETE else MDF_OK
  }
}
