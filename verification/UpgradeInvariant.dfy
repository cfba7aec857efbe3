/** The invariant of one device over all its runs: the byte count, the bitmap and the flash
    agree, and nothing is ever selected for booting unless it is the complete image. */
module UpgradeInvariant {
  import opened Prelude
  import opened Flash
  import opened Bitmap
  import opened UpgradeNode

  // ---------- what the fields of a status mean ----------

  /** Total size of the packets below k whose bit is set. */
  ghost function SizeSum(t: Transfer, bits: seq<Byte>, k: nat): nat
    requires k <= 8 * |bits|
  {
    if k == 0 then 0
    else SizeSum(t, bits, k - 1) + if GetBit(bits, k - 1) then t.Size(k - 1) else 0
  }

  /** The bytes of packet k are on flash. */
  ghost predicate SliceOk(t: Transfer, flash: seq<Byte>, k: nat) {
    && |t.image| <= |flash|
    && forall i | k * PACKET_SIZE <= i < Min((k + 1) * PACKET_SIZE, |t.image|) :: flash[i] == t.image[i]
  }

  /** Every bit the image needs set is still set, so programming can produce the image. */
  ghost predicate Programmable(t: Transfer, flash: seq<Byte>) {
    && |t.image| <= |flash|
    && forall i | 0 <= i < |t.image| :: flash[i] & t.image[i] == t.image[i]
  }

  ghost predicate Installed(t: Transfer, flash: seq<Byte>) {
    |t.image| <= |flash| && flash[..|t.image|] == t.image
  }

  /** Reboots are harmless: either every packet of the image is among 0..3967, the ones whose
      bits survive a snapshot, or the interval leaves no snapshot but the initial one. */
  ghost predicate Resumable(t: Transfer, interval: nat) {
    t.PacketNum() <= 8 * SAVED_BITMAP_SIZE || 100 <= interval
  }

  ghost predicate StatusInv(t: Transfer, c: Status, flash: seq<Byte>)
    requires t.Valid()
  {
    && c.name == t.name && c.totalSize == |t.image| && |c.bitmap| == BITMAP_SIZE
    && if c.errorCode == MDF_ERR_MUPGRADE_STOP then
         c.writtenSize == 0
       else
         && c.writtenSize == SizeSum(t, c.bitmap, t.PacketNum())
         && Programmable(t, flash)
         && forall k: nat | k < t.PacketNum() && GetBit(c.bitmap, k) :: SliceOk(t, flash, k)
  }

  ghost predicate Inv(t: Transfer, n: Node)
    requires t.Valid()
  {
    && WellFormed(n)
    && |t.image| <= |n.update| && |t.image| <= |n.running|
    && (n.config.Some? ==> StatusInv(t, n.config.value, n.update))
    && (n.saved.Some? ==> n.saved.value.errorCode != MDF_ERR_MUPGRADE_STOP)
    && (n.saved.Some? && Resumable(t, n.interval) ==> StatusInv(t, Restore(n.saved.value), n.update))
    && (n.saved.Some? && n.config.None? ==> Resumable(t, n.interval))
    && (n.bootsUpdate ==> Installed(t, n.update) && n.saved.None? && n.config.Some? && n.finished)
    && (n.isRoot ==> Installed(t, n.update) && n.saved.None?)
    && n.interval <= n.nextPercentage
    && ((n.isRoot || n.bootsUpdate) && n.config.Some? ==>
          n.config.value.errorCode == MDF_ERR_MUPGRADE_STOP || n.config.value.writtenSize == |t.image|)
  }

  /** What the root may conclude from a report. */
  ghost predicate ReportOk(t: Transfer, r: Report)
    requires t.Valid()
  {
    && r.totalSize == |t.image|
    && (r.writtenSize != 0 && r.writtenSize != r.totalSize ==>
          |r.bitmap| == BITMAP_SIZE && exists k: nat :: k < t.PacketNum() && !GetBit(r.bitmap, k))
  }

  /** A complete report is sent only with the whole image in the update partition. */
  ghost predicate Truthful(t: Transfer, n: Node, r: Report)
    requires t.Valid()
  {
    ReportOk(t, r) && (r.writtenSize == r.totalSize ==> Installed(t, n.update))
  }

  // ---------- counting ----------

  lemma {:induction false} SizeSumWithBit(t: Transfer, bits: seq<Byte>, j: nat, k: nat)
    requires k <= 8 * |bits| && j < 8 * |bits| && !GetBit(bits, j)
    ensures SizeSum(t, WithBit(bits, j), k) == SizeSum(t, bits, k) + if j < k then t.Size(j) else 0
  {
    if k > 0 {
      GetWithBit(bits, j, k - 1);
      SizeSumWithBit(t, bits, j, k - 1);
    }
  }

  lemma {:induction false} SizeSumBound(t: Transfer, bits: seq<Byte>, k: nat)
    requires t.Valid() && k <= t.PacketNum() <= 8 * |bits|
    ensures SizeSum(t, bits, k) <= Min(k * PACKET_SIZE, |t.image|)
    ensures SizeSum(t, bits, k) == Min(k * PACKET_SIZE, |t.image|) <==> forall j: nat | j < k :: GetBit(bits, j)
  {
    if k > 0 {
      SizeSumBound(t, bits, k - 1);
      t.SliceBounds(k - 1);
    }
  }

  /** written_size == total_size iff every bit below packet_num is set. */
  lemma CompleteIffAllBits(t: Transfer, bits: seq<Byte>)
    requires t.Valid() && |bits| == BITMAP_SIZE
    ensures SizeSum(t, bits, t.PacketNum()) <= |t.image|
    ensures SizeSum(t, bits, t.PacketNum()) == |t.image| <==> forall k: nat | k < t.PacketNum() :: GetBit(bits, k)
  {
    SizeSumBound(t, bits, t.PacketNum());
  }

  lemma {:induction false} SizeSumAgree(t: Transfer, a: seq<Byte>, b: seq<Byte>, k: nat)
    requires k <= 8 * |a| && k <= 8 * |b|
    requires forall j: nat | j < k :: GetBit(a, j) <==> GetBit(b, j)
    ensures SizeSum(t, a, k) == SizeSum(t, b, k)
  {
    if k > 0 {
      SizeSumAgree(t, a, b, k - 1);
    }
  }

  lemma {:induction false} SizeSumZeros(t: Transfer, n: nat, k: nat)
    requires k <= 8 * n
    ensures SizeSum(t, Zeros(n), k) == 0
  {
    if k > 0 {
      SizeSumZeros(t, n, k - 1);
    }
  }

  lemma OnesAreSet(n: nat, k: nat)
    requires k < 8 * n
    ensures GetBit(Ones(n), k)
  {
    FullIffAllOnes(Ones(n));
    assert k in Members(Ones(n));
  }

  // ---------- flash ----------

  lemma ErasedIsProgrammable(t: Transfer, flash: seq<Byte>)
    requires |t.image| <= |flash|
    ensures Programmable(t, Erase(flash))
  {
  }

  lemma AllSlices(t: Transfer, flash: seq<Byte>)
    requires t.Valid() && |t.image| <= |flash|
    ensures Installed(t, flash) <==> forall k: nat | k < t.PacketNum() :: SliceOk(t, flash, k)
  {
    if forall k: nat | k < t.PacketNum() :: SliceOk(t, flash, k) {
      forall i | 0 <= i < |t.image| ensures flash[i] == t.image[i] {
        assert SliceOk(t, flash, i / PACKET_SIZE);
      }
    }
    if Installed(t, flash) {
      assert forall i | 0 <= i < |t.image| :: flash[i] == flash[..|t.image|][i];
    }
  }

  /** Programming packet k yields its slice, spoils no other slice and leaves the rest
      programmable, also where an interrupted earlier attempt has cleared bits already. */
  lemma ProgramPacket(t: Transfer, flash: seq<Byte>, k: nat)
    requires t.Valid() && k < t.PacketNum() && Programmable(t, flash)
    requires k * PACKET_SIZE + t.Size(k) <= |flash|
    ensures var flash' := Program(flash, k * PACKET_SIZE, t.PacketAt(k).data);
            && Programmable(t, flash')
            && SliceOk(t, flash', k)
            && (forall j: nat | SliceOk(t, flash, j) :: SliceOk(t, flash', j))
  {
    t.SliceBounds(k);
    var p := t.PacketAt(k);
    var flash' := Program(flash, k * PACKET_SIZE, p.data);
    forall i | 0 <= i < |t.image|
      ensures flash'[i] == flash[i] || flash'[i] == t.image[i]
      ensures k * PACKET_SIZE <= i < Min((k + 1) * PACKET_SIZE, |t.image|) ==> flash'[i] == t.image[i]
    {
      if k * PACKET_SIZE <= i < k * PACKET_SIZE + t.Size(k) {
        assert p.data[i - k * PACKET_SIZE] == t.image[i];
      }
    }
  }

  // ---------- snapshots ----------

  lemma RestoredBits(c: Status, k: nat)
    requires |c.bitmap| == BITMAP_SIZE && k < PACKET_NUM
    ensures GetBit(Restore(Save(c)).bitmap, k) <==> GetBit(c.bitmap, k) && k < 8 * SAVED_BITMAP_SIZE
  {
  }

  /** A snapshot taken of a consistent status restores to a consistent one exactly when no
      packet from 3968 on had been received. */
  lemma RestoreIsConsistentIff(t: Transfer, c: Status, flash: seq<Byte>)
    requires t.Valid() && StatusInv(t, c, flash) && c.errorCode != MDF_ERR_MUPGRADE_STOP
    ensures StatusInv(t, Restore(Save(c)), flash) <==>
            forall k: nat | 8 * SAVED_BITMAP_SIZE <= k < t.PacketNum() :: !GetBit(c.bitmap, k)
  {
    var r := Restore(Save(c));
    forall k: nat | k < t.PacketNum()
      ensures GetBit(r.bitmap, k) <==> GetBit(c.bitmap, k) && k < 8 * SAVED_BITMAP_SIZE
    {
      RestoredBits(c, k);
    }
    if forall k: nat | 8 * SAVED_BITMAP_SIZE <= k < t.PacketNum() :: !GetBit(c.bitmap, k) {
      SizeSumAgree(t, c.bitmap, r.bitmap, t.PacketNum());
    } else {
      var k: nat :| 8 * SAVED_BITMAP_SIZE <= k < t.PacketNum() && GetBit(c.bitmap, k);
      SizeSumDrops(t, c.bitmap, r.bitmap, k, t.PacketNum());
    }
  }

  lemma {:induction false} SizeSumDrops(t: Transfer, a: seq<Byte>, b: seq<Byte>, j: nat, k: nat)
    requires t.Valid() && j < k <= t.PacketNum() && k <= 8 * |a| && k <= 8 * |b|
    requires GetBit(a, j) && !GetBit(b, j)
    requires forall i: nat | i < k && GetBit(b, i) :: GetBit(a, i)
    ensures SizeSum(t, b, k) < SizeSum(t, a, k)
  {
    t.SliceBounds(k - 1);
    if j == k - 1 {
      SizeSumMonotone(t, a, b, k - 1);
    } else {
      SizeSumDrops(t, a, b, j, k - 1);
    }
  }

  lemma {:induction false} SizeSumMonotone(t: Transfer, a: seq<Byte>, b: seq<Byte>, k: nat)
    requires k <= 8 * |a| && k <= 8 * |b|
    requires forall i: nat | i < k && GetBit(b, i) :: GetBit(a, i)
    ensures SizeSum(t, b, k) <= SizeSum(t, a, k)
  {
    if k > 0 {
      SizeSumMonotone(t, a, b, k - 1);
    }
  }

  // ---------- every operation keeps the invariant ----------

  lemma FreshStatus(t: Transfer, errorCode: int, flash: seq<Byte>)
    requires t.Valid() && Programmable(t, flash) && errorCode != MDF_ERR_MUPGRADE_STOP
    ensures var c := Status(t.name, errorCode, |t.image|, 0, Zeros(BITMAP_SIZE));
            StatusInv(t, c, flash) && StatusInv(t, Restore(Save(c)), flash)
  {
    SizeSumZeros(t, BITMAP_SIZE, t.PacketNum());
    MembersZeros(BITMAP_SIZE);
    var c := Status(t.name, errorCode, |t.image|, 0, Zeros(BITMAP_SIZE));
    forall k: nat | k < t.PacketNum() ensures !GetBit(c.bitmap, k) {
      assert k !in Members(c.bitmap);
    }
    RestoreIsConsistentIff(t, c, flash);
  }

  lemma FullStatus(t: Transfer, errorCode: int, flash: seq<Byte>)
    requires t.Valid() && Installed(t, flash) && errorCode != MDF_ERR_MUPGRADE_STOP
    ensures StatusInv(t, Status(t.name, errorCode, |t.image|, |t.image|, Ones(BITMAP_SIZE)), flash)
  {
    forall k: nat | k < t.PacketNum() ensures GetBit(Ones(BITMAP_SIZE), k) {
      OnesAreSet(BITMAP_SIZE, k);
    }
    CompleteIffAllBits(t, Ones(BITMAP_SIZE));
    AllSlices(t, flash);
    assert forall i | 0 <= i < |t.image| :: flash[i] == flash[..|t.image|][i];
  }

  /** A consistent status always makes a truthful report. */
  lemma ReportIsTruthful(t: Transfer, n: Node, c: Status)
    requires t.Valid() && StatusInv(t, c, n.update) && |t.image| <= |n.update|
    ensures Truthful(t, n, StatusReport(c))
  {
    if c.errorCode != MDF_ERR_MUPGRADE_STOP {
      CompleteIffAllBits(t, c.bitmap);
      AllSlices(t, n.update);
    }
  }

  lemma AnswerKeepsInv(t: Transfer, n: Node, c: Status)
    requires t.Valid() && Inv(t, n.(config := Some(c)))
    ensures Inv(t, Answer(n, c).0) && Truthful(t, Answer(n, c).0, Answer(n, c).1)
  {
    var c' := if c.errorCode != MDF_ERR_MUPGRADE_STOP then c.(errorCode := MDF_OK) else c;
    assert StatusInv(t, c', n.update);
    ReportIsTruthful(t, n, c');
  }

  lemma StatusKeepsInv(t: Transfer, n: Node, req: Request)
    requires t.Valid() && Inv(t, n)
    requires req.name == t.name && req.totalSize == |t.image| && req.errorCode != MDF_ERR_MUPGRADE_STOP
    ensures var (n', r) := HandleStatus(n, req); Inv(t, n') && Truthful(t, n', r)
  {
    var c := Load(n);
    if c.name == req.name && c.totalSize == req.totalSize {
      AnswerKeepsInv(t, n, c);
    } else if n.isRoot {
      FullStatus(t, req.errorCode, n.update);
      AnswerKeepsInv(t, n.(bootsUpdate := true, finished := true),
                     Status(req.name, req.errorCode, req.totalSize, req.totalSize, Ones(BITMAP_SIZE)));
    } else {
      ErasedIsProgrammable(t, n.update);
      FreshStatus(t, req.errorCode, Erase(n.update));
      var initial := Status(req.name, req.errorCode, req.totalSize, 0, Zeros(BITMAP_SIZE));
      AnswerKeepsInv(t, n.(finished := false, update := Erase(n.update), saved := Some(Save(initial))), initial);
    }
  }

  /** Writing one packet of the image keeps the count, the bitmap and the flash in step. */
  lemma WriteKeepsStatusInv(t: Transfer, c: Status, flash: seq<Byte>, k: nat)
    requires t.Valid() && k < t.PacketNum() && StatusInv(t, c, flash)
    requires c.errorCode != MDF_ERR_MUPGRADE_STOP && !GetBit(c.bitmap, k)
    requires k * PACKET_SIZE + t.Size(k) <= |flash|
    ensures var c' := c.(bitmap := WithBit(c.bitmap, k), writtenSize := c.writtenSize + t.Size(k));
            StatusInv(t, c', Program(flash, k * PACKET_SIZE, t.PacketAt(k).data))
  {
    ProgramPacket(t, flash, k);
    SizeSumWithBit(t, c.bitmap, k, t.PacketNum());
    forall j: nat | j < t.PacketNum() && GetBit(WithBit(c.bitmap, k), j)
      ensures SliceOk(t, Program(flash, k * PACKET_SIZE, t.PacketAt(k).data), j)
    {
      GetWithBit(c.bitmap, k, j);
    }
  }

  /** Programming a packet again keeps an older snapshot valid too. */
  lemma WriteKeepsOldSnapshot(t: Transfer, c: Status, flash: seq<Byte>, k: nat)
    requires t.Valid() && k < t.PacketNum() && StatusInv(t, c, flash) && Programmable(t, flash)
    requires k * PACKET_SIZE + t.Size(k) <= |flash|
    ensures StatusInv(t, c, Program(flash, k * PACKET_SIZE, t.PacketAt(k).data))
  {
    ProgramPacket(t, flash, k);
  }

  lemma DataKeepsInv(t: Transfer, n: Node, k: nat, bootOk: bool)
    requires t.Valid() && Inv(t, n) && k < t.PacketNum()
    ensures var (n', rs, ret) := HandleData(n, t.PacketAt(k), bootOk);
            Inv(t, n') && forall r | r in rs :: Truthful(t, n', r)
  {
    t.SliceBounds(k);
    if n.config.Some? || n.saved.Some? {
      var c := Load(n);
      assert Inv(t, n.(config := Some(c)));
      if c.errorCode != MDF_ERR_MUPGRADE_STOP && !GetBit(c.bitmap, k) {
        AcceptKeepsInv(t, n.(config := Some(c)), c, k, bootOk);
      }
    }
  }

  lemma AcceptKeepsInv(t: Transfer, n: Node, c: Status, k: nat, bootOk: bool)
    requires t.Valid() && Inv(t, n) && k < t.PacketNum() && n.config == Some(c)
    requires c.errorCode != MDF_ERR_MUPGRADE_STOP && !GetBit(c.bitmap, k)
    requires k * PACKET_SIZE + t.Size(k) <= |n.update|
    ensures var (n', rs, ret) := Accept(n, c, t.PacketAt(k), bootOk);
            Inv(t, n') && forall r | r in rs :: Truthful(t, n', r)
  {
    AcceptSteps(t, n, c, k, bootOk);
    var m, c' := ProgrammedKeepsInv(t, n, c, k);
    AfterWriteKeepsInv(t, m, c', bootOk);
  }

  lemma AfterWriteKeepsInv(t: Transfer, m: Node, c: Status, bootOk: bool)
    requires t.Valid() && Inv(t, m) && m.config == Some(c)
    requires c.errorCode != MDF_ERR_MUPGRADE_STOP && !m.isRoot && !m.bootsUpdate
    ensures var (n', rs, ret) :=
              if c.writtenSize == c.totalSize then Finish(Snapshot(m, c), c, bootOk) else (Snapshot(m, c), [], MDF_OK);
            Inv(t, n') && forall r | r in rs :: Truthful(t, n', r)
  {
    SnapshotKeepsInv(t, m, c);
    CompleteIffAllBits(t, c.bitmap);
    if c.writtenSize == c.totalSize {
      FinishKeepsInv(t, Snapshot(m, c), c, bootOk);
    }
  }

  lemma AcceptSteps(t: Transfer, n: Node, c: Status, k: nat, bootOk: bool)
    requires WellFormed(n) && |c.bitmap| == BITMAP_SIZE && 0 < c.totalSize
    requires t.Valid() && k < t.PacketNum() && k * PACKET_SIZE + t.Size(k) <= |n.update|
    ensures var c' := c.(bitmap := WithBit(c.bitmap, k), writtenSize := c.writtenSize + t.Size(k));
            var m := n.(update := Program(n.update, k * PACKET_SIZE, t.PacketAt(k).data), config := Some(c'));
            Accept(n, c, t.PacketAt(k), bootOk) ==
            if c'.writtenSize == c'.totalSize then Finish(Snapshot(m, c'), c', bootOk) else (Snapshot(m, c'), [], MDF_OK)
  {
    t.SliceBounds(k);
    var p := t.PacketAt(k);
    assert p.data[..p.size] == p.data;
  }

  lemma ProgrammedKeepsInv(t: Transfer, n: Node, c: Status, k: nat) returns (m: Node, c': Status)
    requires t.Valid() && Inv(t, n) && k < t.PacketNum() && n.config == Some(c)
    requires c.errorCode != MDF_ERR_MUPGRADE_STOP && !GetBit(c.bitmap, k)
    requires k * PACKET_SIZE + t.Size(k) <= |n.update|
    ensures c' == c.(bitmap := WithBit(c.bitmap, k), writtenSize := c.writtenSize + t.Size(k))
    ensures m == n.(update := Program(n.update, k * PACKET_SIZE, t.PacketAt(k).data), config := Some(c'))
    ensures Inv(t, m) && !n.isRoot && !n.bootsUpdate
  {
    CompleteIffAllBits(t, c.bitmap);
    c' := c.(bitmap := WithBit(c.bitmap, k), writtenSize := c.writtenSize + t.Size(k));
    m := n.(update := Program(n.update, k * PACKET_SIZE, t.PacketAt(k).data), config := Some(c'));
    WriteKeepsStatusInv(t, c, n.update, k);
    if n.saved.Some? && Resumable(t, n.interval) {
      WriteKeepsOldSnapshot(t, Restore(n.saved.value), n.update, k);
    }
  }

  /** Taking a snapshot, or only moving the next percentage, keeps the invariant. */
  lemma SnapshotKeepsInv(t: Transfer, n: Node, c: Status)
    requires t.Valid() && Inv(t, n) && n.config == Some(c)
    requires c.errorCode != MDF_ERR_MUPGRADE_STOP && !n.isRoot && !n.bootsUpdate
    ensures c.writtenSize < c.totalSize ==> Inv(t, Snapshot(n, c))
    ensures Inv(t, Snapshot(n, c).(saved := None))
    ensures Snapshot(n, c).config == n.config
  {
    SnapshotShape(n, c);
    if Snapshot(n, c).saved == Some(Save(c)) && c.writtenSize < c.totalSize {
      RestoreIsConsistentIff(t, c, n.update);
    }
  }

  lemma SnapshotShape(n: Node, c: Status)
    requires |c.bitmap| == BITMAP_SIZE && 0 < c.totalSize && 1 <= n.interval <= n.nextPercentage
    ensures var n' := Snapshot(n, c);
            && n' == n.(saved := n'.saved, nextPercentage := n'.nextPercentage)
            && n.interval <= n'.nextPercentage
            && (n'.saved == n.saved || n'.saved == Some(Save(c)))
            && (n'.saved != n.saved && c.writtenSize < c.totalSize ==> n.interval < 100)
  {
    var percentage := c.writtenSize * 100 / c.totalSize;
    assert c.writtenSize < c.totalSize ==> percentage < 100;
    if percentage > n.nextPercentage {
      assert percentage / n.interval >= 1;
      assert (percentage / n.interval + 1) * n.interval == percentage / n.interval * n.interval + n.interval;
    }
  }

  lemma FinishKeepsInv(t: Transfer, n: Node, c: Status, bootOk: bool)
    requires t.Valid() && WellFormed(n) && Inv(t, n.(saved := None)) && n.config == Some(c)
    requires c.errorCode != MDF_ERR_MUPGRADE_STOP && c.writtenSize == c.totalSize
    ensures var (n', rs, ret) := Finish(n, c, bootOk);
            Inv(t, n') && forall r | r in rs :: Truthful(t, n', r)
  {
    CompleteIffAllBits(t, c.bitmap);
    AllSlices(t, n.update);
  }

  lemma StopKeepsInv(t: Transfer, n: Node)
    requires t.Valid() && Inv(t, n)
    ensures var (n', rs) := HandleStop(n); Inv(t, n') && forall r | r in rs :: Truthful(t, n', r)
  {
  }

  /** A reboot resumes from the last snapshot. With packets 3968 and up in the image the
      snapshot may be inconsistent, so it has to be absent then. */
  lemma PowerCycleKeepsInv(t: Transfer, n: Node)
    requires t.Valid() && Inv(t, n) && !n.isRoot && (Resumable(t, n.interval) || n.saved.None?)
    ensures Inv(t, PowerCycle(n))
  {
  }
}
