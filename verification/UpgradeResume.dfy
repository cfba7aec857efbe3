/** When resuming from a snapshot is sound. The snapshot loses the last 16 bytes of the bitmap,
    so images of more than 3968 packets have runs in which the byte count and the bitmap of a
    device drift apart; for all others no run does. */
module UpgradeResume {
  import opened Prelude
  import opened Bitmap
  import opened UpgradeNode
  import opened UpgradeInvariant
  import opened UpgradeRuns

  /** written_size is the total size of the packets the bitmap lists. */
  ghost predicate CountOk(t: Transfer, n: Node)
    requires t.Valid() && WellFormed(n)
  {
    n.config.Some? && n.config.value.errorCode != MDF_ERR_MUPGRADE_STOP ==>
      n.config.value.writtenSize == SizeSum(t, n.config.value.bitmap, t.PacketNum())
  }

  const LOST := 8 * SAVED_BITMAP_SIZE

  lemma InitialInv(t: Transfer, n: Node)
    requires t.Valid() && Initial(t, n)
    ensures Inv(t, n)
  {
  }

  lemma {:induction false} RunConcat(t: Transfer, n: Node, a: seq<Op>, b: seq<Op>)
    requires t.Valid() && WellFormed(n)
    ensures Run(t, n, a + b) == Run(t, Run(t, n, a), b)
    decreases |a|
  {
    if a == [] {
      assert a + b == b;
    } else {
      assert (a + b)[0] == a[0] && (a + b)[1..] == a[1..] + b;
      RunConcat(t, Apply(t, n, a[0]).0, a[1..], b);
    }
  }

  function Percentage(written: nat, total: nat): nat
    requires 0 < total
  {
    written * 100 / total
  }

  lemma MulMonotone(a: nat, b: nat, d: nat)
    requires a <= b
    ensures a * d <= b * d
  {
    assert b * d == a * d + (b - a) * d;
  }

  lemma QuotientBelow(x: nat, d: nat, q: nat)
    requires 0 < d && x < (q + 1) * d
    ensures x / d <= q
  {
    var k := x / d;
    assert k * d <= x;
    if q + 1 <= k {
      MulMonotone(q + 1, k, d);
    }
  }

  lemma QuotientAbove(x: nat, d: nat, q: nat)
    requires 0 < d && q * d <= x
    ensures q <= x / d
  {
    var k := x / d;
    assert x < (k + 1) * d;
    if k + 1 <= q {
      MulMonotone(k + 1, q, d);
    }
  }

  /** With more than 3968 packets a single one is worth less than one percent. */
  lemma PercentageStep(written: nat, size: nat, total: nat)
    requires size <= PACKET_SIZE && PACKET_SIZE * LOST < total
    ensures Percentage(written + size, total) <= Percentage(written, total) + 1
  {
    var q := written * 100 / total;
    QuotientMeaning(written * 100, total);
    OneMoreTimes(q, total);
    QuotientBelow((written + size) * 100, total, q + 1);
  }

  lemma QuotientMeaning(x: nat, d: nat)
    requires 0 < d
    ensures x < (x / d) * d + d
  {
  }

  lemma OneMoreTimes(q: nat, d: nat)
    ensures (q + 2) * d == q * d + d + d
  {
  }

  lemma PercentageFull(total: nat)
    requires 0 < total
    ensures Percentage(total, total) == 100
  {
  }

  /** Downloading with packets below j and packet 3968 held, before the first snapshot. */
  ghost predicate Climbing(t: Transfer, n: Node, j: nat) {
    && t.Valid() && LOST < t.PacketNum()
    && Inv(t, n) && Downloading(t, n) && !n.isRoot
    && Has(n, LOST)
    && (forall k: nat | k < j && k < t.PacketNum() :: Has(n, k))
    && (forall k: nat | j <= k < t.PacketNum() && k != LOST :: !Has(n, k))
    && n.nextPercentage == n.interval < 100
    && Percentage(n.config.value.writtenSize, |t.image|) < n.interval
  }

  /** A snapshot has just been taken although packet 3968 is held. */
  ghost predicate SnapshotTaken(t: Transfer, n: Node) {
    && t.Valid() && LOST < t.PacketNum()
    && Inv(t, n) && Downloading(t, n) && !n.isRoot && !n.bootsUpdate
    && Has(n, LOST)
    && n.saved == Some(Save(n.config.value))
  }

  /** The effect of a new packet that does not complete the image. */
  lemma NewPacket(t: Transfer, n: Node, k: nat)
    requires t.Valid() && Inv(t, n) && Downloading(t, n) && k < t.PacketNum() && !Has(n, k)
    requires n.config.value.writtenSize + t.Size(k) < |t.image|
    ensures var n' := Apply(t, n, Data(k, true)).0;
            var c := n.config.value;
            var c' := c.(bitmap := WithBit(c.bitmap, k), writtenSize := c.writtenSize + t.Size(k));
            var percentage := Percentage(c'.writtenSize, |t.image|);
            && n'.config == Some(c') && n'.isRoot == n.isRoot && n'.bootsUpdate == n.bootsUpdate
            && (percentage == n.nextPercentage ==> n'.saved == Some(Save(c')))
            && (percentage < n.nextPercentage ==> n'.nextPercentage == n.nextPercentage)
  {
    t.SliceBounds(k);
    AcceptSteps(t, n, n.config.value, k, true);
  }

  lemma ClimbStep(t: Transfer, n: Node, j: nat)
    requires Climbing(t, n, j) && j != LOST && j < t.PacketNum()
    ensures var n' := Apply(t, n, Data(j, true)).0;
            SnapshotTaken(t, n') || Climbing(t, n', j + 1)
  {
    var n' := Apply(t, n, Data(j, true)).0;
    Room(t, n.config.value.writtenSize, j, n.interval);
    NewPacket(t, n, j);
    ClimbHolds(t, n, j);
    assert Percentage(n'.config.value.writtenSize, |t.image|) <= n.interval;
  }

  lemma ClimbHolds(t: Transfer, n: Node, j: nat)
    requires Climbing(t, n, j) && j != LOST && j < t.PacketNum()
    ensures var n' := Apply(t, n, Data(j, true)).0;
            && Inv(t, n') && Downloading(t, n') && Has(n', LOST)
            && (forall k: nat | k < j + 1 && k < t.PacketNum() :: Has(n', k))
            && (forall k: nat | j + 1 <= k < t.PacketNum() && k != LOST :: !Has(n', k))
            && n'.interval == n.interval && n'.isRoot == n.isRoot
  {
    ApplyKeepsInv(t, n, Data(j, true));
    SteadyKeepsPackets(t, n, Data(j, true));
  }

  /** Below 99 percent there is room for one more packet. */
  lemma Room(t: Transfer, written: nat, j: nat, interval: nat)
    requires t.Valid() && LOST < t.PacketNum() && j < t.PacketNum()
    requires Percentage(written, |t.image|) < interval < 100
    ensures written + t.Size(j) < |t.image|
    ensures Percentage(written + t.Size(j), |t.image|) <= interval
  {
    t.SliceBounds(j);
    PercentageStep(written, t.Size(j), |t.image|);
    if written + t.Size(j) >= |t.image| {
      QuotientAbove((written + t.Size(j)) * 100, |t.image|, 100);
      assert false;
    }
  }

  lemma {:induction false} Climb(t: Transfer, n: Node, j: nat) returns (ops: seq<Op>)
    requires Climbing(t, n, j)
    ensures SnapshotTaken(t, Run(t, n, ops))
    decreases t.PacketNum() - j
  {
    if j >= t.PacketNum() {
      CompleteIffHasAll(t, n);
      PercentageFull(|t.image|);
      assert false;
    } else if j == LOST {
      ops := Climb(t, n, j + 1);
    } else {
      ClimbStep(t, n, j);
      var n' := Apply(t, n, Data(j, true)).0;
      if SnapshotTaken(t, n') {
        ops := [Data(j, true)];
        assert Run(t, n, ops) == Run(t, n', ops[1..]);
      } else {
        var rest := Climb(t, n', j + 1);
        ops := [Data(j, true)] + rest;
        assert ops[1..] == rest;
      }
    }
  }

  /** Request, then packet 3968 first. */
  lemma StartClimbing(t: Transfer, n: Node)
    requires t.Valid() && LOST < t.PacketNum() && Initial(t, n) && !n.isRoot && n.interval < 100
    ensures Climbing(t, Run(t, n, [Ask, Data(LOST, true)]), 0)
  {
    var n1 := Apply(t, n, Ask).0;
    var n2 := Apply(t, n1, Data(LOST, true)).0;
    assert Run(t, n, [Ask, Data(LOST, true)]) == n2 by {
      assert [Ask, Data(LOST, true)][1..] == [Data(LOST, true)];
      assert Run(t, n1, [Data(LOST, true)]) == n2;
    }
    InitialInv(t, n);
    NothingHeldAfterRequest(t, n);
    FirstPacket(t, n1);
  }

  lemma FirstPacket(t: Transfer, n: Node)
    requires t.Valid() && LOST < t.PacketNum()
    requires Inv(t, n) && Downloading(t, n) && !n.isRoot && !n.bootsUpdate && n.nextPercentage == n.interval < 100
    requires n.config.value.writtenSize == 0 && forall k: nat | k < PACKET_NUM :: !Has(n, k)
    ensures Climbing(t, Apply(t, n, Data(LOST, true)).0, 0)
  {
    t.SliceBounds(LOST);
    QuotientBelow(t.Size(LOST) * 100, |t.image|, 0);
    NewPacket(t, n, LOST);
    ApplyKeepsInv(t, n, Data(LOST, true));
    SteadyKeepsPackets(t, n, Data(LOST, true));
  }

  lemma NothingHeldAfterRequest(t: Transfer, n: Node)
    requires t.Valid() && Initial(t, n) && !n.isRoot
    ensures var n' := Apply(t, n, Ask).0;
            && Inv(t, n') && Downloading(t, n') && !n'.bootsUpdate && n'.nextPercentage == n.nextPercentage
            && n'.config.value.writtenSize == 0
            && forall k: nat | k < PACKET_NUM :: !Has(n', k)
  {
    InitialInv(t, n);
    ApplyKeepsInv(t, n, Ask);
    MembersZeros(BITMAP_SIZE);
    forall k: nat | k < PACKET_NUM ensures !GetBit(Zeros(BITMAP_SIZE), k) {
      assert k !in Members(Zeros(BITMAP_SIZE));
    }
  }

  /** After the reboot the count still includes packet 3968, the bitmap no longer does. */
  lemma ResumeLosesPackets(t: Transfer, n: Node)
    requires SnapshotTaken(t, n)
    ensures !CountOk(t, Run(t, n, [Reboot, Ask]))
  {
    var c := n.config.value;
    var n1 := Apply(t, n, Reboot).0;
    var n2 := Apply(t, n1, Ask).0;
    assert Run(t, n, [Reboot, Ask]) == n2 by {
      assert [Reboot, Ask][1..] == [Ask];
      assert Run(t, n1, [Ask]) == n2;
    }
    var r := Restore(Save(c));
    forall k: nat | k < t.PacketNum()
      ensures GetBit(r.bitmap, k) <==> GetBit(c.bitmap, k) && k < LOST
    {
      RestoredBits(c, k);
    }
    SizeSumDrops(t, c.bitmap, r.bitmap, LOST, t.PacketNum());
  }

  lemma DriftRun(t: Transfer, n: Node) returns (ops: seq<Op>)
    requires t.Valid() && Initial(t, n) && !n.isRoot && !Resumable(t, n.interval)
    ensures !CountOk(t, Run(t, n, ops))
  {
    StartClimbing(t, n);
    var start := [Ask, Data(LOST, true)];
    var climb := Climb(t, Run(t, n, start), 0);
    RunConcat(t, n, start, climb);
    ResumeLosesPackets(t, Run(t, n, start + climb));
    RunConcat(t, n, start + climb, [Reboot, Ask]);
    ops := start + climb + [Reboot, Ask];
  }

  /** Count and bitmap agree in every run, reboots included, if and only if the image has at
      most 3968 packets or the report interval is 100 percent. */
  lemma ResumeSoundIff(t: Transfer, interval: nat)
    requires t.Valid() && 1 <= interval
    ensures Resumable(t, interval) <==>
            forall n: Node, ops: seq<Op> | Initial(t, n) && n.interval == interval && WellFormed(n) ::
              CountOk(t, Run(t, n, ops))
  {
    if Resumable(t, interval) {
      forall n: Node, ops: seq<Op> | Initial(t, n) && n.interval == interval && WellFormed(n)
        ensures CountOk(t, Run(t, n, ops))
      {
        InitialInv(t, n);
        RunKeepsInv(t, n, ops);
      }
    } else {
      var n := Node(false, interval, t.image, t.image, false, None, None, false, interval);
      var ops := DriftRun(t, n);
    }
  }
}
