/** Runs of one device: any sequence of status requests, packets in any order and any number,
    stops, reboots and writes cut short by a power failure. */
module UpgradeRuns {
  import opened Prelude
  import opened Bitmap
  import opened UpgradeNode
  import opened UpgradeInvariant

  datatype Op =
    | Ask
    | Data(k: nat, bootOk: bool)
    | Stop
    | Reboot
    | Interrupt(at: nat, flash: seq<Byte>)

  function RootRequest(t: Transfer): Request {
    Request(t.name, MDF_ERR_MUPGRADE_FIRMWARE_FINISH, |t.image|)
  }

  /** What may be on flash when programming `data` was cut short: some of the bits that
      the write clears are cleared, and nothing else has changed. */
  predicate CutShort(before: seq<Byte>, offset: nat, data: seq<Byte>, after: seq<Byte>)
    requires offset + |data| <= |before|
  {
    && |after| == |before|
    && (forall i | 0 <= i < |before| && !(offset <= i < offset + |data|) :: after[i] == before[i])
    && forall i | offset <= i < offset + |data| ::
         && after[i] & before[i] == after[i]
         && after[i] & (before[i] & data[i - offset]) == before[i] & data[i - offset]
  }

  /** The write of packet k would be reached, and its interruption leaves `flash`. */
  predicate Interruptible(t: Transfer, n: Node, k: nat, flash: seq<Byte>)
    requires WellFormed(n) && t.PacketNum() <= PACKET_NUM && k < t.PacketNum()
  {
    && (n.config.Some? || n.saved.Some?) && Load(n).errorCode != MDF_ERR_MUPGRADE_STOP
    && !GetBit(Load(n).bitmap, k)
    && k * PACKET_SIZE + t.Size(k) <= |n.update|
    && (t.SliceBounds(k); CutShort(n.update, k * PACKET_SIZE, t.PacketAt(k).data, flash))
  }

  function Apply(t: Transfer, n: Node, op: Op): (r: (Node, seq<Report>))
    requires 0 < |t.image| <= PACKET_SIZE * PACKET_NUM && WellFormed(n)
    ensures WellFormed(r.0) && r.0.interval == n.interval && r.0.isRoot == n.isRoot
  {
    match op
    case Ask => var (n', r) := HandleStatus(n, RootRequest(t)); (n', [r])
    case Data(k, bootOk) =>
      if k < t.PacketNum() then
        var (n', rs, _) := HandleData(n, t.PacketAt(k), bootOk); (n', rs)
      else
        (n, [])
    case Stop => HandleStop(n)
    case Reboot => if n.isRoot then (n, []) else (PowerCycle(n), [])
    case Interrupt(k, flash) =>
      if k < t.PacketNum() && Interruptible(t, n, k, flash) then (n.(update := flash, config := Some(Load(n))), [])
      else (n, [])
  }

  function Run(t: Transfer, n: Node, ops: seq<Op>): (r: Node)
    requires 0 < |t.image| <= PACKET_SIZE * PACKET_NUM && WellFormed(n)
    ensures WellFormed(r)
    decreases |ops|
  {
    if ops == [] then n else Run(t, Apply(t, n, ops[0]).0, ops[1..])
  }

  /** A device before the upgrade: no config, no snapshot, any flash contents. The root
      itself starts with the downloaded image in its update partition. */
  ghost predicate Initial(t: Transfer, n: Node) {
    && 1 <= n.interval && n.nextPercentage == n.interval
    && |t.image| <= |n.update| && |t.image| <= |n.running|
    && n.config.None? && n.saved.None? && !n.bootsUpdate && !n.finished
    && (n.isRoot ==> Installed(t, n.update))
  }

  lemma InterruptKeepsInv(t: Transfer, n: Node, k: nat, flash: seq<Byte>)
    requires t.Valid() && Inv(t, n) && k < t.PacketNum() && Interruptible(t, n, k, flash)
    ensures Inv(t, n.(update := flash, config := Some(Load(n))))
  {
    CompleteIffAllBits(t, Load(n).bitmap);
    t.SliceBounds(k);
    InterruptKeepsStatusInv(t, Load(n), n.update, k, flash);
    if n.saved.Some? && Resumable(t, n.interval) {
      InterruptKeepsStatusInv(t, Restore(n.saved.value), n.update, k, flash);
    }
  }

  lemma InterruptKeepsStatusInv(t: Transfer, c: Status, before: seq<Byte>, k: nat, after: seq<Byte>)
    requires t.Valid() && k < t.PacketNum() && StatusInv(t, c, before) && Programmable(t, before)
    requires k * PACKET_SIZE + t.Size(k) <= |before|
    requires CutShort(before, k * PACKET_SIZE, t.PacketAt(k).data, after)
    ensures StatusInv(t, c, after)
  {
    InterruptKeepsFlash(t, before, k, after);
  }

  /** A write of packet k that is cut short spoils nothing. */
  lemma InterruptKeepsFlash(t: Transfer, before: seq<Byte>, k: nat, after: seq<Byte>)
    requires t.Valid() && k < t.PacketNum() && Programmable(t, before)
    requires k * PACKET_SIZE + t.Size(k) <= |before|
    requires CutShort(before, k * PACKET_SIZE, t.PacketAt(k).data, after)
    ensures Programmable(t, after) && forall j: nat | SliceOk(t, before, j) :: SliceOk(t, after, j)
  {
    t.SliceBounds(k);
    forall i | 0 <= i < |t.image|
      ensures after[i] & t.image[i] == t.image[i]
      ensures before[i] == t.image[i] ==> after[i] == t.image[i]
    {
      assert before[i] & t.image[i] == t.image[i];
      if k * PACKET_SIZE <= i < k * PACKET_SIZE + t.Size(k) {
        assert t.PacketAt(k).data[i - k * PACKET_SIZE] == t.image[i];
        assert after[i] & (before[i] & t.image[i]) == before[i] & t.image[i];
      }
    }
  }

  lemma ApplyKeepsInv(t: Transfer, n: Node, op: Op)
    requires t.Valid() && Inv(t, n) && (Resumable(t, n.interval) || op != Reboot)
    ensures var (n', rs) := Apply(t, n, op); Inv(t, n') && forall r | r in rs :: Truthful(t, n', r)
  {
    match op
    case Ask => StatusKeepsInv(t, n, RootRequest(t));
    case Data(k, bootOk) => if k < t.PacketNum() { DataKeepsInv(t, n, k, bootOk); }
    case Stop => StopKeepsInv(t, n);
    case Reboot => if !n.isRoot { PowerCycleKeepsInv(t, n); }
    case Interrupt(k, flash) =>
      if k < t.PacketNum() && Interruptible(t, n, k, flash) { InterruptKeepsInv(t, n, k, flash); }
  }

  /** Every run of a device keeps the invariant; reboots are safe for images of up to
      3968 packets, everything else for all images. */
  lemma {:induction false} RunKeepsInv(t: Transfer, n: Node, ops: seq<Op>)
    requires t.Valid() && Inv(t, n) && (Resumable(t, n.interval) || Reboot !in ops)
    ensures Inv(t, Run(t, n, ops))
    decreases |ops|
  {
    if ops != [] {
      ApplyKeepsInv(t, n, ops[0]);
      RunKeepsInv(t, Apply(t, n, ops[0]).0, ops[1..]);
    }
  }

  // ---------- progress ----------

  ghost predicate Downloading(t: Transfer, n: Node) {
    && n.config.Some? && n.config.value.errorCode != MDF_ERR_MUPGRADE_STOP
    && n.config.value.name == t.name && n.config.value.totalSize == |t.image|
    && |n.config.value.bitmap| == BITMAP_SIZE
  }

  ghost predicate Has(n: Node, k: nat)
    requires n.config.Some? && |n.config.value.bitmap| == BITMAP_SIZE
  {
    k < PACKET_NUM && GetBit(n.config.value.bitmap, k)
  }

  ghost predicate Complete(t: Transfer, n: Node) {
    && Downloading(t, n)
    && n.config.value.writtenSize == n.config.value.totalSize
    && Installed(t, n.update)
    && forall k: nat | k < t.PacketNum() :: Has(n, k)
  }

  /** Nothing that happens to a node short of a stop or a reboot. */
  predicate Steady(op: Op) {
    op.Ask? || (op.Data? && op.bootOk) || op.Interrupt?
  }

  /** What one step does to the status of a device that is downloading. */
  lemma SteadyStatus(t: Transfer, n: Node, op: Op)
    requires t.Valid() && Inv(t, n) && Downloading(t, n) && Steady(op)
    ensures var n' := Apply(t, n, op).0;
            && Downloading(t, n')
            && n'.config.value.bitmap ==
                 if op.Data? && op.k < t.PacketNum() && !Has(n, op.k) then WithBit(n.config.value.bitmap, op.k)
                 else n.config.value.bitmap
  {
    if op.Data? && op.k < t.PacketNum() && !Has(n, op.k) {
      t.SliceBounds(op.k);
      AcceptedStatus(t, n, op.k);
    }
  }

  lemma AcceptedStatus(t: Transfer, n: Node, k: nat)
    requires t.Valid() && Inv(t, n) && Downloading(t, n) && k < t.PacketNum() && !Has(n, k)
    requires k * PACKET_SIZE + t.Size(k) <= |n.update|
    ensures t.PacketAt(k).size <= |t.PacketAt(k).data|
    ensures var c := n.config.value;
            Accept(n, c, t.PacketAt(k), true).0.config ==
            Some(c.(bitmap := WithBit(c.bitmap, k), writtenSize := c.writtenSize + t.Size(k)))
  {
    AcceptSteps(t, n, n.config.value, k, true);
  }

  /** Packets are never forgotten, and a delivered packet is held afterwards. */
  lemma SteadyKeepsPackets(t: Transfer, n: Node, op: Op)
    requires t.Valid() && Inv(t, n) && Downloading(t, n) && Steady(op)
    ensures var n' := Apply(t, n, op).0;
            && Downloading(t, n')
            && forall k: nat | k < t.PacketNum() :: Has(n', k) <==> Has(n, k) || op == Data(k, true)
  {
    SteadyStatus(t, n, op);
    if op.Data? && op.k < t.PacketNum() {
      forall k: nat | k < t.PacketNum()
        ensures GetBit(WithBit(n.config.value.bitmap, op.k), k) <==> GetBit(n.config.value.bitmap, k) || k == op.k
      {
        GetWithBit(n.config.value.bitmap, op.k, k);
      }
    }
  }

  lemma CompleteIffHasAll(t: Transfer, n: Node)
    requires t.Valid() && Inv(t, n) && Downloading(t, n)
    ensures Complete(t, n) <==> forall k: nat | k < t.PacketNum() :: Has(n, k)
  {
    if forall k: nat | k < t.PacketNum() :: Has(n, k) {
      forall k: nat | k < t.PacketNum() ensures GetBit(n.config.value.bitmap, k) {
        assert Has(n, k);
      }
      CompleteIffAllBits(t, n.config.value.bitmap);
      AllSlices(t, n.update);
    }
  }

  /** Round coverage. `n` is the device when it sent the report whose bitmap the root merged
      into `progress`; `ops` is whatever reaches the device until the round is over: other
      packets, duplicates, requests, interrupted writes, in any order. If every packet
      missing from `progress` is among them, the device ends complete. */
  lemma {:induction false} RoundCompletes(t: Transfer, n: Node, progress: seq<Byte>, ops: seq<Op>)
    requires t.Valid() && Inv(t, n) && Downloading(t, n)
    requires |progress| == BITMAP_SIZE
    requires forall op | op in ops :: Steady(op)
    requires forall k: nat | k < t.PacketNum() :: GetBit(progress, k) || Data(k, true) in ops || Has(n, k)
    requires forall k: nat | k < t.PacketNum() && GetBit(progress, k) :: Has(n, k)
    ensures Complete(t, Run(t, n, ops))
    decreases |ops|
  {
    if ops == [] {
      CompleteIffHasAll(t, n);
    } else {
      assert Steady(ops[0]);
      ApplyKeepsInv(t, n, ops[0]);
      SteadyKeepsPackets(t, n, ops[0]);
      RoundCompletes(t, Apply(t, n, ops[0]).0, progress, ops[1..]);
    }
  }

  /** The number of packets below k that the device still lacks. */
  ghost function Missing(bits: seq<Byte>, k: nat): nat
    requires k <= 8 * |bits|
  {
    if k == 0 then 0 else Missing(bits, k - 1) + if GetBit(bits, k - 1) then 0 else 1
  }

  lemma {:induction false} MissingWithBit(bits: seq<Byte>, j: nat, k: nat)
    requires k <= 8 * |bits| && j < 8 * |bits| && !GetBit(bits, j)
    ensures Missing(WithBit(bits, j), k) == Missing(bits, k) - if j < k then 1 else 0
  {
    if k > 0 {
      GetWithBit(bits, j, k - 1);
      MissingWithBit(bits, j, k - 1);
    }
  }

  lemma {:induction false} MissingZero(bits: seq<Byte>, k: nat)
    requires k <= 8 * |bits|
    ensures Missing(bits, k) == 0 <==> forall j: nat | j < k :: GetBit(bits, j)
  {
    if k > 0 {
      MissingZero(bits, k - 1);
    }
  }

  /** The progress measure of a download: each packet that is new lowers it by exactly one,
      nothing else changes it, and it is zero exactly when the device is complete. */
  lemma ProgressMeasure(t: Transfer, n: Node, op: Op)
    requires t.Valid() && Inv(t, n) && Downloading(t, n) && Steady(op)
    ensures var n' := Apply(t, n, op).0;
            && Downloading(t, n')
            && Missing(n'.config.value.bitmap, t.PacketNum()) ==
                 Missing(n.config.value.bitmap, t.PacketNum())
                 - (if op.Data? && op.k < t.PacketNum() && !Has(n, op.k) then 1 else 0)
            && (Missing(n'.config.value.bitmap, t.PacketNum()) == 0 <==> Complete(t, n'))
  {
    var n' := Apply(t, n, op).0;
    SteadyStatus(t, n, op);
    ApplyKeepsInv(t, n, op);
    if op.Data? && op.k < t.PacketNum() && !Has(n, op.k) {
      MissingWithBit(n.config.value.bitmap, op.k, t.PacketNum());
    }
    MissingZero(n'.config.value.bitmap, t.PacketNum());
    assert forall k: nat | k < t.PacketNum() :: Has(n', k) <==> GetBit(n'.config.value.bitmap, k);
    CompleteIffHasAll(t, n');
  }
}
