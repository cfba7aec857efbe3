/** What a mesh node does with upgrade packets (mupgrade_node.c), as functions from one device
    state to the next. `UpgradeDevice` is the imperative code that these functions specify and
    `UpgradeInvariant` has the invariant that every run keeps. */
module UpgradeNode {
  import opened Prelude
  import opened Flash
  import opened Bitmap

  // Error codes of mdf_err.h and mupgrade.h
  const MDF_OK := 0
  const MDF_FAIL := -1
  const MDF_ERR_INVALID_ARG := 0x100002
  const MDF_ERR_MUPGRADE_FIRMWARE_INCOMPLETE := 0x500004
  const MDF_ERR_MUPGRADE_FIRMWARE_DOWNLOAD := 0x500005
  const MDF_ERR_MUPGRADE_FIRMWARE_FINISH := 0x500006
  const MDF_ERR_MUPGRADE_SEND_PACKET_LOSS := 0x500008
  const MDF_ERR_MUPGRADE_NOT_INIT := 0x500009
  const MDF_ERR_MUPGRADE_STOP := 0x50000A

  const PACKET_SIZE := 1024
  const PACKET_NUM := 4096
  const BITMAP_SIZE := PACKET_NUM / 8

  // mupgrade_config_t puts 16 bytes (queue, handle, partition, start_time) before the
  // 45-byte mupgrade_status_t and the bitmap behind it, but a snapshot is only
  // sizeof(mupgrade_status_t) + 512 bytes counted from the start of the config.
  const CONFIG_HEADER_SIZE := 16
  const STATUS_SIZE := 45
  const SAVED_BITMAP_SIZE := STATUS_SIZE + BITMAP_SIZE - (CONFIG_HEADER_SIZE + STATUS_SIZE)

  /** The firmware being distributed. */
  datatype Transfer = Transfer(name: string, image: seq<Byte>) {
    ghost predicate Valid() {
      0 < |image| <= PACKET_SIZE * PACKET_NUM
    }

    function PacketNum(): nat {
      (|image| + PACKET_SIZE - 1) / PACKET_SIZE
    }

    /** packet->size: every packet is full except the last one. */
    function Size(k: nat): nat {
      var last := |image| % PACKET_SIZE;
      if k == PacketNum() - 1 && last != 0 then last else PACKET_SIZE
    }

    /** The packet the root reads from its own partition for sequence number k. */
    function PacketAt(k: nat): (p: Packet)
      requires k < PacketNum()
      ensures p.seqNo == k && p.size == |p.data|
    {
      assert k * PACKET_SIZE + Size(k) <= |image| by { SliceBounds(k); }
      Packet(k, Size(k), image[k * PACKET_SIZE..k * PACKET_SIZE + Size(k)])
    }

    lemma SliceBounds(k: nat)
      requires k < PacketNum()
      ensures 0 < Size(k) <= PACKET_SIZE
      ensures k * PACKET_SIZE + Size(k) == Min((k + 1) * PACKET_SIZE, |image|)
    {
    }
  }

  /** mupgrade_packet_t: the first `size` bytes of its data field are the payload. */
  datatype Packet = Packet(seqNo: nat, size: nat, data: seq<Byte>)

  /** mupgrade_status_t as the root sends it: the request for a status. */
  datatype Request = Request(name: string, errorCode: int, totalSize: nat)

  /** mupgrade_status_t as a node sends it. The bitmap is on the wire only while the
      download is under way; otherwise `bitmap` is empty. */
  datatype Report = Report(errorCode: int, totalSize: nat, writtenSize: nat, bitmap: seq<Byte>)

  /** g_upgrade_config->status */
  datatype Status = Status(name: string, errorCode: int, totalSize: nat, writtenSize: nat, bitmap: seq<Byte>)

  /** One device. `update` is the partition a new image is written to and `running` the
      one the device booted from; `bootsUpdate` says that the boot selection has been
      switched. `config` is RAM, `saved` is the NVS entry. */
  datatype Node = Node(
    isRoot: bool,
    interval: nat,
    update: seq<Byte>,
    running: seq<Byte>,
    bootsUpdate: bool,
    config: Option<Status>,
    saved: Option<Status>,
    finished: bool,
    nextPercentage: nat)

  // ---------- flash and NVS ----------

  function Erase(flash: seq<Byte>): (r: seq<Byte>)
  {
    Ones(|flash|)
  }

  /** mdf_info_save of the config: the last bytes of the bitmap are not saved. */
  function Save(s: Status): (r: Status)
    requires |s.bitmap| == BITMAP_SIZE
  {
    s.(bitmap := s.bitmap[..SAVED_BITMAP_SIZE])
  }

  /** mdf_info_load into a zeroed config. */
  function Restore(s: Status): (r: Status)
    requires |s.bitmap| == SAVED_BITMAP_SIZE
  {
    s.(bitmap := s.bitmap + Zeros(BITMAP_SIZE - SAVED_BITMAP_SIZE))
  }

  predicate Loadable(n: Node) {
    && (n.config.Some? ==> |n.config.value.bitmap| == BITMAP_SIZE)
    && (n.saved.Some? ==> |n.saved.value.bitmap| == SAVED_BITMAP_SIZE)
    && 1 <= n.interval
  }

  /** Not for an empty firmware: mupgrade_write divides by its size. */
  predicate WellFormed(n: Node) {
    && Loadable(n)
    && (n.config.Some? ==> 0 < n.config.value.totalSize)
    && (n.saved.Some? ==> 0 < n.saved.value.totalSize)
  }

  const EMPTY_STATUS := Status("", MDF_OK, 0, 0, Zeros(BITMAP_SIZE))

  /** The lazy allocation at the top of mupgrade_status and mupgrade_write. */
  function Load(n: Node): (r: Status)
    requires Loadable(n)
    ensures |r.bitmap| == BITMAP_SIZE
  {
    if n.config.Some? then n.config.value
    else if n.saved.Some? then Restore(n.saved.value)
    else EMPTY_STATUS
  }

  // ---------- mupgrade_status ----------

  function StatusReport(c: Status): (r: Report)
  {
    Report(c.errorCode, c.totalSize, c.writtenSize,
           if c.writtenSize != 0 && c.writtenSize != c.totalSize then c.bitmap else [])
  }

  /** The EXIT part: the error code is refreshed unless the upgrade was stopped. */
  function Answer(n: Node, c: Status): (r: (Node, Report))
  {
    var c' := if c.errorCode != MDF_ERR_MUPGRADE_STOP then c.(errorCode := MDF_OK) else c;
    (n.(config := Some(c')), StatusReport(c'))
  }

  function HandleStatus(n: Node, req: Request): (r: (Node, Report))
    requires Loadable(n)
    ensures Loadable(r.0) && (WellFormed(n) && 0 < req.totalSize ==> WellFormed(r.0))
    ensures r.0.interval == n.interval && r.0.isRoot == n.isRoot && r.0.running == n.running
  {
    var c := Load(n);
    if c.name == req.name && c.totalSize == req.totalSize then
      Answer(n, c)
    else if n.isRoot then
      Answer(n.(bootsUpdate := true, finished := true),
             Status(req.name, req.errorCode, req.totalSize, req.totalSize, Ones(BITMAP_SIZE)))
    else
      var initial := Status(req.name, req.errorCode, req.totalSize, 0, Zeros(BITMAP_SIZE));
      Answer(n.(finished := false, update := Erase(n.update), saved := Some(Save(initial))), initial)
  }

  // ---------- mupgrade_write ----------

  function StopReport(c: Status): Report {
    Report(c.errorCode, c.totalSize, c.writtenSize, [])
  }

  /** Stored percentage, and the snapshot taken when it is hit exactly. */
  function Snapshot(n: Node, c: Status): (r: Node)
    requires |c.bitmap| == BITMAP_SIZE && 0 < c.totalSize && 1 <= n.interval
  {
    var percentage := c.writtenSize * 100 / c.totalSize;
    if percentage == n.nextPercentage then
      n.(nextPercentage := n.nextPercentage + n.interval, saved := Some(Save(c)))
    else if percentage > n.nextPercentage then
      n.(nextPercentage := (percentage / n.interval + 1) * n.interval)
    else
      n
  }

  function Finish(n: Node, c: Status, bootOk: bool): (r: (Node, seq<Report>, int))
  {
    if bootOk then
      (n.(saved := None, config := Some(c), bootsUpdate := true, finished := true), [StopReport(c)], MDF_OK)
    else
      (n.(saved := None, config := Some(c.(writtenSize := 0, errorCode := MDF_ERR_MUPGRADE_STOP))), [], MDF_FAIL)
  }

  /** A packet that is not a duplicate: flash, bitmap, count, snapshot, completion. */
  function Accept(n: Node, c: Status, p: Packet, bootOk: bool): (r: (Node, seq<Report>, int))
    requires WellFormed(n) && |c.bitmap| == BITMAP_SIZE && 0 < c.totalSize
    requires p.seqNo < PACKET_NUM && p.size <= |p.data|
    requires p.seqNo * PACKET_SIZE + p.size <= |n.update|
    ensures WellFormed(r.0) && r.0.interval == n.interval && r.0.isRoot == n.isRoot && r.0.running == n.running
  {
    var c' := c.(bitmap := WithBit(c.bitmap, p.seqNo), writtenSize := c.writtenSize + p.size);
    var n' := Snapshot(n.(update := Program(n.update, p.seqNo * PACKET_SIZE, p.data[..p.size]),
                          config := Some(c')), c');
    if c'.writtenSize == c'.totalSize then Finish(n', c', bootOk) else (n', [], MDF_OK)
  }

  /** mupgrade_write; `bootOk` is the outcome of esp_ota_set_boot_partition. The code
      reads past the bitmap when a sequence number is beyond it but not beyond the total size. */
  function HandleData(n: Node, p: Packet, bootOk: bool): (r: (Node, seq<Report>, int))
    requires WellFormed(n) && p.size <= |p.data|
    requires p.seqNo < PACKET_NUM || Load(n).totalSize < p.seqNo * PACKET_SIZE
    ensures WellFormed(r.0) && r.0.interval == n.interval && r.0.isRoot == n.isRoot && r.0.running == n.running
  {
    if n.config.None? && n.saved.None? then
      (n, [], MDF_ERR_MUPGRADE_NOT_INIT)
    else
      var c := Load(n);
      var n := n.(config := Some(c));
      if c.errorCode == MDF_ERR_MUPGRADE_STOP then
        var c' := c.(writtenSize := 0, bitmap := Zeros(BITMAP_SIZE));
        (n.(config := Some(c'), saved := None), [StopReport(c')], MDF_OK)
      else if p.seqNo * PACKET_SIZE > c.totalSize then
        (n, [], MDF_ERR_INVALID_ARG)
      else if GetBit(c.bitmap, p.seqNo) then
        (n, [], MDF_OK)
      else if p.seqNo * PACKET_SIZE + p.size > |n.update| then
        (n, [], MDF_ERR_MUPGRADE_FIRMWARE_DOWNLOAD)
      else
        Accept(n, c, p, bootOk)
  }

  // ---------- mupgrade_stop and power cycles ----------

  function HandleStop(n: Node): (r: (Node, seq<Report>))
    requires WellFormed(n)
    ensures WellFormed(r.0) && r.0.interval == n.interval && r.0.isRoot == n.isRoot && r.0.running == n.running
  {
    if n.config.None? then
      (n, [])
    else
      var c := n.config.value.(errorCode := MDF_ERR_MUPGRADE_STOP, writtenSize := 0, bitmap := Zeros(BITMAP_SIZE));
      (n.(bootsUpdate := if n.finished then false else n.bootsUpdate, config := Some(c), saved := None),
       [StopReport(c)])
  }

  /** RAM is lost; the device comes up from the partition selected for booting. */
  function PowerCycle(n: Node): (r: Node)
    requires WellFormed(n)
    ensures WellFormed(r) && r.interval == n.interval && r.isRoot == n.isRoot
  {
    n.(update := if n.bootsUpdate then n.running else n.update,
       running := if n.bootsUpdate then n.update else n.running,
       bootsUpdate := false, config := None, finished := false, nextPercentage := n.interval)
  }
}
