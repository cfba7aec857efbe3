/** Why resuming with more than 3968 packets matters. A restart forgets packet 3968 but not that
    it was counted, so that it is counted again. There are runs in which a device that has never
    received some packets reports the image as complete and selects it for booting, and runs in
    which a device has received everything and is never done. Together with `UpgradeLimits` this
    decides exactly when only complete images are ever booted. */
module UpgradeDrift {
  import opened Prelude
  import opened Flash
  import opened Bitmap
  import opened UpgradeNode
  import opened UpgradeInvariant
  import opened UpgradeRuns
  import opened UpgradeResume
  import opened UpgradeLimits

  /** Nothing has been written where packet 0 belongs. */
  ghost predicate FirstErased(t: Transfer, flash: seq<Byte>) {
    && |t.image| <= |flash|
    && forall i | 0 <= i < Min(PACKET_SIZE, |t.image|) :: flash[i] == 0xFF
  }

  /** The count can be made up. For images in which packet 3968 is a full one, once is enough. */
  ghost predicate Driftable(t: Transfer, interval: nat, a: nat, w: nat, m: nat) {
    && t.Valid() && LOST < t.PacketNum() && 1 <= interval < 100
    && MakesUp(|t.image|, interval, a, w, m) && (Small(t) || (w == 1 && m == 1))
  }

  /** The last packet, or the one before it if the last one is packet 3968. */
  function Final(t: Transfer): nat
    requires LOST < t.PacketNum()
  {
    if t.PacketNum() - 1 == LOST then LOST - 1 else t.PacketNum() - 1
  }

  /** What has been counted when packet 3968 and all packets from w up to j have been received, and
      packet 3968 another c times. */
  function Counted(t: Transfer, w: nat, j: nat, c: nat): int {
    Min(j * PACKET_SIZE, |t.image|) - w * PACKET_SIZE + (if j <= LOST then t.Size(LOST) else 0) + c * t.Size(LOST)
  }

  lemma CountedMore(t: Transfer, w: nat, j: nat, c: nat)
    requires t.Valid() && 0 < j < t.PacketNum()
    ensures 0 < t.Size(j) <= PACKET_SIZE
    ensures Counted(t, w, j + 1, c) == Counted(t, w, j, c) + if j == LOST then 0 else t.Size(j)
  {
    t.SliceBounds(j);
  }

  lemma CountedAgain(t: Transfer, w: nat, j: nat, c: nat)
    ensures Counted(t, w, j, c + 1) == Counted(t, w, j, c) + t.Size(LOST)
    ensures Counted(t, w, j, 0) + c * t.Size(LOST) == Counted(t, w, j, c)
  {
    OnceMore(c, t.Size(LOST));
  }

  /** What is left to count after c recounts. */
  function Rest(t: Transfer, m: nat, c: nat): int {
    (m - c) * t.Size(LOST)
  }

  lemma LostFacts(t: Transfer)
    requires t.Valid() && LOST < t.PacketNum()
    ensures t.Size(LOST) == LostSize(|t.image|) && 0 < t.Size(LOST) <= PACKET_SIZE
  {
    t.SliceBounds(LOST);
  }

  lemma DriftFacts(t: Transfer, interval: nat, a: nat, w: nat, m: nat)
    requires Driftable(t, interval, a, w, m)
    ensures t.Size(LOST) == LostSize(|t.image|) && 0 < t.Size(LOST) <= PACKET_SIZE
    ensures m * t.Size(LOST) == w * PACKET_SIZE && w < LOST && w < Final(t)
    ensures (a + w) * PACKET_SIZE + t.Size(LOST) <= |t.image| && LOST * PACKET_SIZE < |t.image|
    ensures interval * |t.image| <= (a * PACKET_SIZE + t.Size(LOST)) * 100
    ensures (a * PACKET_SIZE + t.Size(LOST) + AtFirst(interval, m) * t.Size(LOST)) * 100 < (interval + 1) * |t.image|
  {
    LostFacts(t);
    MulMonotone(1, interval, |t.image|);
    SomeOthers(|t.image|, a, t.Size(LOST));
  }

  lemma SomeOthers(size: nat, a: nat, lost: nat)
    requires LOST * PACKET_SIZE < size <= (a * PACKET_SIZE + lost) * 100 && lost <= PACKET_SIZE
    ensures 2 <= a
  {
  }

  /** Counting everything but the first w packets, and packet 3968 another m times. */
  lemma CountedAll(t: Transfer, interval: nat, a: nat, w: nat, m: nat, c: nat)
    requires Driftable(t, interval, a, w, m) && c <= m
    ensures Counted(t, w, Final(t) + 1, c) == |t.image| - Rest(t, m, c)
    ensures 0 <= Rest(t, m, c) <= w * PACKET_SIZE && (c < m ==> t.Size(LOST) <= Rest(t, m, c))
  {
    DriftFacts(t, interval, a, w, m);
    t.SliceBounds(Final(t));
    MulMonotone(0, m - c, t.Size(LOST));
    MulMonotone(m - c, m, t.Size(LOST));
    if c < m {
      MulMonotone(1, m - c, t.Size(LOST));
    }
    assert m * t.Size(LOST) == (m - c) * t.Size(LOST) + c * t.Size(LOST);
  }

  lemma CountedBounds(t: Transfer, interval: nat, a: nat, w: nat, m: nat, j: nat, c: nat)
    requires Driftable(t, interval, a, w, m) && w <= j <= Final(t) + 1 && c <= m
    ensures 0 <= Counted(t, w, j, c) <= |t.image| - Rest(t, m, c)
    ensures j <= Final(t) ==> Counted(t, w, j, c) < |t.image| - Rest(t, m, c)
  {
    DriftFacts(t, interval, a, w, m);
    CountedAll(t, interval, a, w, m, c);
    t.SliceBounds(Final(t));
    MulMonotone(0, c, t.Size(LOST));
  }

  /** Downloading with that count, with nothing received from j on but packet 3968. */
  ghost predicate Counting(t: Transfer, n: Node, w: nat, j: nat, c: nat)
    requires t.Valid()
  {
    && WellFormed(n) && Downloading(t, n) && !n.isRoot && !n.bootsUpdate && 0 < w <= j
    && n.config.value.writtenSize == Counted(t, w, j, c) && FirstErased(t, n.update)
    && NoneFrom(t, n.config.value.bitmap, j)
  }

  ghost predicate NoneFrom(t: Transfer, bits: seq<Byte>, j: nat)
    requires t.Valid() && |bits| == BITMAP_SIZE
  {
    forall k: nat | j <= k < t.PacketNum() && k != LOST :: !GetBit(bits, k)
  }

  lemma FirstStaysErased(t: Transfer, flash: seq<Byte>, k: nat)
    requires t.Valid() && 0 < k < t.PacketNum() && FirstErased(t, flash)
    ensures k * PACKET_SIZE + t.Size(k) <= |flash|
    ensures FirstErased(t, Program(flash, k * PACKET_SIZE, t.PacketAt(k).data))
  {
    t.SliceBounds(k);
  }

  /** A new packet other than 0 that does not make the count complete. */
  lemma Deliver(t: Transfer, n: Node, k: nat)
    requires t.Valid() && WellFormed(n) && Downloading(t, n) && !n.isRoot && !n.bootsUpdate
    requires FirstErased(t, n.update) && 0 < k < t.PacketNum() && !Has(n, k)
    requires n.config.value.writtenSize + t.Size(k) < |t.image|
    ensures var n' := Apply(t, n, Data(k, true)).0;
            var written := n.config.value.writtenSize + t.Size(k);
            var percentage := Percentage(written, |t.image|);
            && Downloading(t, n') && !n'.isRoot && !n'.bootsUpdate && n'.config.value.writtenSize == written
            && FirstErased(t, n'.update)
            && n'.config.value.bitmap == WithBit(n.config.value.bitmap, k)
            && Moved(n, n', percentage)
  {
    t.SliceBounds(k);
    FirstStaysErased(t, n.update, k);
    AcceptSteps(t, n, n.config.value, k, true);
  }

  /** What reaching a percentage does to the snapshot. */
  ghost predicate Moved(n: Node, n': Node, percentage: nat) {
    && n'.interval == n.interval && 1 <= n.interval
    && (percentage == n.nextPercentage ==>
          n'.config.Some? && |n'.config.value.bitmap| == BITMAP_SIZE
          && n'.saved == Some(Save(n'.config.value)) && n'.nextPercentage == n.nextPercentage + n.interval)
    && (percentage < n.nextPercentage ==> n'.nextPercentage == n.nextPercentage)
    && (percentage > n.nextPercentage ==> n'.nextPercentage == (percentage / n.interval + 1) * n.interval)
  }

  /** The packet with which the count reaches the total size. */
  lemma DeliverLast(t: Transfer, n: Node, k: nat)
    requires t.Valid() && WellFormed(n) && Downloading(t, n)
    requires FirstErased(t, n.update) && 0 < k < t.PacketNum() && !Has(n, k)
    requires n.config.value.writtenSize + t.Size(k) == |t.image|
    ensures var (n', reports) := Apply(t, n, Data(k, true));
            && n'.bootsUpdate && FirstErased(t, n'.update)
            && |reports| == 1 && reports[0].writtenSize == reports[0].totalSize == |t.image|
  {
    t.SliceBounds(k);
    FirstStaysErased(t, n.update, k);
    AcceptSteps(t, n, n.config.value, k, true);
  }

  lemma OthersStayAway(t: Transfer, bits: seq<Byte>, k: nat, j: nat)
    requires t.Valid() && |bits| == BITMAP_SIZE && k < t.PacketNum() && NoneFrom(t, bits, j)
    ensures NoneFrom(t, WithBit(bits, k), if j <= k then k + 1 else j)
    ensures k == LOST ==> NoneFrom(t, WithBit(bits, k), j)
    ensures k != LOST && !GetBit(bits, LOST) ==> !GetBit(WithBit(bits, k), LOST)
  {
    forall i: nat | i < PACKET_NUM ensures GetBit(WithBit(bits, k), i) <==> GetBit(bits, i) || i == k {
      GetWithBit(bits, k, i);
    }
  }

  /** The next packet in order. */
  lemma DeliverNext(t: Transfer, n: Node, w: nat, j: nat, c: nat)
    requires t.Valid() && LOST < t.PacketNum() && Counting(t, n, w, j, c) && j <= Final(t) && j != LOST
    requires 0 <= Counted(t, w, j + 1, c) < |t.image|
    ensures var n' := Apply(t, n, Data(j, true)).0;
            && Counting(t, n', w, j + 1, c)
            && (GetBit(n.config.value.bitmap, LOST) ==> GetBit(n'.config.value.bitmap, LOST))
            && Moved(n, n', Percentage(n'.config.value.writtenSize, |t.image|))
  {
    CountedMore(t, w, j, c);
    Deliver(t, n, j);
    OthersStayAway(t, n.config.value.bitmap, j, j);
    GetWithBit(n.config.value.bitmap, j, LOST);
  }

  // ---------- runs in which packet 0 is missing ----------

  lemma RunCons(t: Transfer, n: Node, op: Op, ops: seq<Op>)
    requires t.Valid() && WellFormed(n)
    ensures Run(t, n, [op] + ops) == Run(t, Apply(t, n, op).0, ops)
  {
    assert ([op] + ops)[1..] == ops;
  }

  /** Packet 0 is not among what the device receives, nor is anything cut short. */
  predicate Withheld(t: Transfer, ops: seq<Op>) {
    forall i | 0 <= i < |ops| :: (ops[i].Data? ==> 0 < ops[i].k < t.PacketNum()) && !ops[i].Interrupt?
  }

  /** All the way packet 0 is missing and nothing is selected for booting. */
  ghost predicate Hidden(t: Transfer, n: Node, ops: seq<Op>)
    requires t.Valid() && WellFormed(n)
    decreases |ops|
  {
    !n.bootsUpdate && FirstErased(t, n.update) && (ops == [] || Hidden(t, Apply(t, n, ops[0]).0, ops[1..]))
  }

  lemma {:induction false} HiddenConcat(t: Transfer, n: Node, a: seq<Op>, b: seq<Op>)
    requires t.Valid() && WellFormed(n) && Hidden(t, n, a) && Hidden(t, Run(t, n, a), b)
    ensures Hidden(t, n, a + b)
    decreases |a|
  {
    if a == [] {
      assert a + b == b;
    } else {
      assert (a + b)[0] == a[0] && (a + b)[1..] == a[1..] + b;
      HiddenConcat(t, Apply(t, n, a[0]).0, a[1..], b);
    }
  }

  /** A run from n to n2 in which packet 0 is missing and nothing is selected. */
  ghost predicate LeadsTo(t: Transfer, n: Node, ops: seq<Op>, n2: Node)
    requires t.Valid() && WellFormed(n)
  {
    Withheld(t, ops) && Hidden(t, n, ops) && Run(t, n, ops) == n2
  }

  lemma LeadsNowhere(t: Transfer, n: Node)
    requires t.Valid() && WellFormed(n) && !n.bootsUpdate && FirstErased(t, n.update)
    ensures LeadsTo(t, n, [], n)
  {
  }

  lemma LeadsOn(t: Transfer, n: Node, a: seq<Op>, n1: Node, b: seq<Op>, n2: Node)
    requires t.Valid() && WellFormed(n) && LeadsTo(t, n, a, n1) && LeadsTo(t, n1, b, n2)
    ensures LeadsTo(t, n, a + b, n2)
  {
    RunConcat(t, n, a, b);
    HiddenConcat(t, n, a, b);
  }

  lemma LeadsOne(t: Transfer, n: Node, op: Op)
    requires t.Valid() && WellFormed(n) && !n.bootsUpdate && FirstErased(t, n.update)
    requires (op.Data? ==> 0 < op.k < t.PacketNum()) && !op.Interrupt?
    requires var n' := Apply(t, n, op).0; !n'.bootsUpdate && FirstErased(t, n'.update)
    ensures LeadsTo(t, n, [op], Apply(t, n, op).0)
  {
    var n' := Apply(t, n, op).0;
    RunCons(t, n, op, []);
    assert [op] + [] == [op] && [op][1..] == [];
    assert Hidden(t, n', []);
  }

  // ---------- up to a level ----------

  /** On the way to the snapshot at a level. */
  ghost predicate Aiming(t: Transfer, n: Node, w: nat, j: nat, c: nat, level: nat)
    requires t.Valid() && LOST < t.PacketNum()
  {
    && Counting(t, n, w, j, c) && j <= Final(t) + 1 && GetBit(n.config.value.bitmap, LOST)
    && 1 <= n.interval < 100 && n.nextPercentage == level
    && 0 <= Counted(t, w, j, c) && Percentage(Counted(t, w, j, c), |t.image|) < level
  }

  /** A snapshot has been taken at a level. */
  ghost predicate AtLevel(t: Transfer, n: Node, w: nat, j: nat, c: nat, level: nat)
    requires t.Valid() && LOST < t.PacketNum()
  {
    && Counting(t, n, w, j, c) && j <= Final(t) + 1 && GetBit(n.config.value.bitmap, LOST)
    && 1 <= n.interval < 100 && n.nextPercentage == level + n.interval
    && n.saved == Some(Save(n.config.value))
    && 0 <= Counted(t, w, j, c) && Percentage(Counted(t, w, j, c), |t.image|) == level
  }

  /** It has just been reached with the last packet in order. */
  ghost predicate JustReached(t: Transfer, w: nat, j: nat, c: nat, level: nat) {
    (Counted(t, w, j, c) - PACKET_SIZE) * 100 < level * |t.image|
  }

  lemma BelowLevel(x: nat, d: nat, q: nat)
    requires 0 < d && x / d < q
    ensures x < q * d
  {
    QuotientMeaning(x, d);
    MulMonotone(x / d + 1, q, d);
    OnceMore(x / d, d);
  }

  lemma UntilReached(t: Transfer, n: Node, interval: nat, a: nat, w: nat, m: nat, j: nat, c: nat, level: nat)
    requires Driftable(t, interval, a, w, m) && c < m && Aiming(t, n, w, j, c, level) && j != LOST && j <= Final(t)
    ensures var n' := Apply(t, n, Data(j, true)).0;
            || Aiming(t, n', w, j + 1, c, level)
            || (AtLevel(t, n', w, j + 1, c, level) && JustReached(t, w, j + 1, c, level))
    ensures !Apply(t, n, Data(j, true)).0.bootsUpdate && FirstErased(t, Apply(t, n, Data(j, true)).0.update)
  {
    NextCounted(t, interval, a, w, m, j, c, level);
    DeliverNext(t, n, w, j, c);
  }

  lemma NextCounted(t: Transfer, interval: nat, a: nat, w: nat, m: nat, j: nat, c: nat, level: nat)
    requires Driftable(t, interval, a, w, m) && c < m && w <= j <= Final(t) && j != LOST && 0 < j
    requires 0 <= Counted(t, w, j, c) && Percentage(Counted(t, w, j, c), |t.image|) < level
    ensures 0 <= Counted(t, w, j + 1, c) < |t.image| && Percentage(Counted(t, w, j + 1, c), |t.image|) <= level
    ensures JustReached(t, w, j + 1, c, level)
  {
    DriftFacts(t, interval, a, w, m);
    CountedMore(t, w, j, c);
    CountedAll(t, interval, a, w, m, c);
    CountedBounds(t, interval, a, w, m, j + 1, c);
    PercentageStep(Counted(t, w, j, c), t.Size(j), |t.image|);
    BelowLevel(Counted(t, w, j, c) * 100, |t.image|, level);
  }

  /** The level is reached before the packets run out. */
  lemma {:induction false} ToLevel(t: Transfer, n: Node, interval: nat, a: nat, w: nat, m: nat, j: nat, c: nat, level: nat)
    returns (ops: seq<Op>, j': nat, n': Node)
    requires Driftable(t, interval, a, w, m) && c < m && Aiming(t, n, w, j, c, level)
    requires level * |t.image| <= (|t.image| - Rest(t, m, c)) * 100
    ensures LeadsTo(t, n, ops, n') && Reboot !in ops && AtLevel(t, n', w, j', c, level) && JustReached(t, w, j', c, level)
    decreases t.PacketNum() - j
  {
    NotAllYet(t, n, interval, a, w, m, j, c, level);
    if j == LOST {
      CountedMore(t, w, j, c);
      ops, j', n' := ToLevel(t, n, interval, a, w, m, j + 1, c, level);
    } else {
      UntilReached(t, n, interval, a, w, m, j, c, level);
      LeadsOne(t, n, Data(j, true));
      var n1 := Apply(t, n, Data(j, true)).0;
      if Aiming(t, n1, w, j + 1, c, level) {
        var rest;
        rest, j', n' := ToLevel(t, n1, interval, a, w, m, j + 1, c, level);
        LeadsOn(t, n, [Data(j, true)], n1, rest, n');
        ops := [Data(j, true)] + rest;
      } else {
        ops, j', n' := [Data(j, true)], j + 1, n1;
      }
    }
  }

  lemma NotAllYet(t: Transfer, n: Node, interval: nat, a: nat, w: nat, m: nat, j: nat, c: nat, level: nat)
    requires Driftable(t, interval, a, w, m) && c < m && Aiming(t, n, w, j, c, level)
    requires level * |t.image| <= (|t.image| - Rest(t, m, c)) * 100
    ensures j <= Final(t)
  {
    CountedAll(t, interval, a, w, m, c);
    if j == Final(t) + 1 {
      QuotientAbove(Counted(t, w, j, c) * 100, |t.image|, level);
    }
  }

  // ---------- the first snapshot ----------

  lemma LostFirst(t: Transfer, n: Node, interval: nat, a: nat, w: nat, m: nat)
    requires Driftable(t, interval, a, w, m) && WellFormed(n) && Downloading(t, n) && !n.isRoot && !n.bootsUpdate
    requires n.config.value.writtenSize == 0 && FirstErased(t, n.update)
    requires forall k: nat | k < PACKET_NUM :: !GetBit(n.config.value.bitmap, k)
    requires 1 <= n.nextPercentage == n.interval < 100
    ensures Aiming(t, Apply(t, n, Data(LOST, true)).0, w, w, 0, n.interval)
  {
    DriftFacts(t, interval, a, w, m);
    t.SliceBounds(LOST);
    QuotientBelow(t.Size(LOST) * 100, |t.image|, 0);
    Deliver(t, n, LOST);
    OthersStayAway(t, n.config.value.bitmap, LOST, w);
    GetWithBit(n.config.value.bitmap, LOST, LOST);
  }

  /** The device after its first answer. */
  function Asked(t: Transfer, n: Node): Node
    requires 0 < |t.image| <= PACKET_SIZE * PACKET_NUM && WellFormed(n)
  {
    Apply(t, n, Ask).0
  }

  /** Packet 3968 first, then the others in order up to the first snapshot. */
  lemma FirstSnapshot(t: Transfer, n: Node, a: nat, w: nat, m: nat) returns (ops: seq<Op>, j: nat, n': Node)
    requires Driftable(t, n.interval, a, w, m) && Initial(t, n) && !n.isRoot
    ensures LeadsTo(t, Asked(t, n), ops, n') && Reboot !in ops
    ensures AtLevel(t, n', w, j, 0, n.interval) && JustReached(t, w, j, 0, n.interval) && n'.interval == n.interval
  {
    var n1 := Asked(t, n);
    NothingHeldAfterRequest(t, n);
    assert forall k: nat | k < PACKET_NUM :: !Has(n1, k);
    LostFirst(t, n1, n.interval, a, w, m);
    var n2 := Apply(t, n1, Data(LOST, true)).0;
    LeadsOne(t, n1, Data(LOST, true));
    DriftFacts(t, n.interval, a, w, m);
    CountedAll(t, n.interval, a, w, m, 0);
    var rest;
    rest, j, n' := ToLevel(t, n2, n.interval, a, w, m, w, 0, n.interval);
    LeadsOn(t, n1, [Data(LOST, true)], n2, rest, n');
    SameInterval(t, n2, rest);
    ops := [Data(LOST, true)] + rest;
  }

  lemma {:induction false} SameInterval(t: Transfer, n: Node, ops: seq<Op>)
    requires t.Valid() && WellFormed(n)
    ensures Run(t, n, ops).interval == n.interval
    decreases |ops|
  {
    if ops != [] {
      SameInterval(t, Apply(t, n, ops[0]).0, ops[1..]);
    }
  }

  // ---------- after a restart ----------

  /** The restart forgets packet 3968 and those behind it, but not that they were counted. */
  lemma Resume(t: Transfer, n: Node, w: nat, j: nat, c: nat, level: nat)
    requires t.Valid() && LOST < t.PacketNum() && AtLevel(t, n, w, j, c, level)
    ensures var n' := Apply(t, Apply(t, n, Reboot).0, Ask).0;
            && Counting(t, n', w, j, c) && !GetBit(n'.config.value.bitmap, LOST)
            && n'.nextPercentage == n'.interval == n.interval
            && !Apply(t, n, Reboot).0.bootsUpdate && FirstErased(t, Apply(t, n, Reboot).0.update)
  {
    var s := n.config.value;
    forall k: nat | k < PACKET_NUM ensures GetBit(Restore(Save(s)).bitmap, k) <==> GetBit(s.bitmap, k) && k < LOST {
      RestoredBits(s, k);
    }
  }

  lemma Restart(t: Transfer, n: Node, w: nat, j: nat, c: nat, level: nat) returns (ops: seq<Op>, n': Node)
    requires t.Valid() && LOST < t.PacketNum() && AtLevel(t, n, w, j, c, level)
    ensures LeadsTo(t, n, ops, n') && n' == Apply(t, Apply(t, n, Reboot).0, Ask).0
    ensures Counting(t, n', w, j, c) && !GetBit(n'.config.value.bitmap, LOST)
    ensures n'.nextPercentage == n'.interval == n.interval
  {
    Resume(t, n, w, j, c, level);
    var n1 := Apply(t, n, Reboot).0;
    n' := Apply(t, n1, Ask).0;
    LeadsOne(t, n, Reboot);
    LeadsOne(t, n1, Ask);
    LeadsOn(t, n, [Reboot], n1, [Ask], n');
    ops := [Reboot] + [Ask];
  }

  /** Packet 3968 is received again. */
  lemma LostAgain(t: Transfer, n: Node, w: nat, j: nat, c: nat)
    requires t.Valid() && LOST < t.PacketNum() && Counting(t, n, w, j, c) && !GetBit(n.config.value.bitmap, LOST)
    requires Counted(t, w, j, c + 1) < |t.image|
    ensures var n' := Apply(t, n, Data(LOST, true)).0;
            && Counting(t, n', w, j, c + 1) && GetBit(n'.config.value.bitmap, LOST)
            && Moved(n, n', Percentage(n'.config.value.writtenSize, |t.image|))
  {
    CountedAgain(t, w, j, c);
    Deliver(t, n, LOST);
    OthersStayAway(t, n.config.value.bitmap, LOST, j);
    GetWithBit(n.config.value.bitmap, LOST, LOST);
  }

  /** A restart, and packet 3968 again. */
  lemma Recount(t: Transfer, n: Node, w: nat, j: nat, c: nat, level: nat) returns (ops: seq<Op>, n': Node)
    requires t.Valid() && LOST < t.PacketNum() && AtLevel(t, n, w, j, c, level)
    requires Counted(t, w, j, c + 1) < |t.image|
    ensures LeadsTo(t, n, ops, n') && Counting(t, n', w, j, c + 1) && GetBit(n'.config.value.bitmap, LOST)
    ensures n'.interval == n.interval && 0 <= Counted(t, w, j, c + 1)
    ensures var percentage := Percentage(Counted(t, w, j, c + 1), |t.image|);
            && (percentage == n.interval ==> AtLevel(t, n', w, j, c + 1, n.interval))
            && (percentage > n.interval ==> n'.nextPercentage == (percentage / n.interval + 1) * n.interval)
  {
    var n1;
    var back;
    back, n1 := Restart(t, n, w, j, c, level);
    CountedAgain(t, w, j, c);
    LostAgain(t, n1, w, j, c);
    n' := Apply(t, n1, Data(LOST, true)).0;
    LeadsOne(t, n1, Data(LOST, true));
    LeadsOn(t, n, back, n1, [Data(LOST, true)], n');
    ops := back + [Data(LOST, true)];
  }

  // ---------- recounts at the first level ----------

  lemma StillFirst(t: Transfer, interval: nat, a: nat, w: nat, m: nat, j: nat, c: nat)
    requires Driftable(t, interval, a, w, m) && w <= j <= Final(t) + 1 && c <= AtFirst(interval, m)
    requires 0 <= Counted(t, w, j, 0) && Percentage(Counted(t, w, j, 0), |t.image|) == interval
    requires JustReached(t, w, j, 0, interval)
    ensures 0 <= Counted(t, w, j, c) < |t.image| && Percentage(Counted(t, w, j, c), |t.image|) == interval
  {
    MulMonotone(0, c, t.Size(LOST));
    CountedAgain(t, w, j, c);
    FewEnough(t, interval, a, w, m, j, c);
    Within(Counted(t, w, j, 0), Counted(t, w, j, c), |t.image|, interval);
    MulMonotone(interval + 1, 100, |t.image|);
  }

  lemma Within(x: nat, y: nat, total: nat, q: nat)
    requires 0 < total && x <= y && Percentage(x, total) == q && y * 100 < (q + 1) * total
    ensures Percentage(y, total) == q
  {
    QuotientFloor(x * 100, total);
    QuotientAbove(y * 100, total, q);
    QuotientBelow(y * 100, total, q);
  }

  lemma FewEnough(t: Transfer, interval: nat, a: nat, w: nat, m: nat, j: nat, c: nat)
    requires Driftable(t, interval, a, w, m) && w <= j <= Final(t) + 1 && c <= AtFirst(interval, m)
    requires 0 <= Counted(t, w, j, 0) && Percentage(Counted(t, w, j, 0), |t.image|) == interval
    requires JustReached(t, w, j, 0, interval)
    ensures Counted(t, w, j, c) * 100 < (interval + 1) * |t.image|
  {
    if Small(t) {
      CountedAgain(t, w, j, c);
      DriftFacts(t, interval, a, w, m);
      MulMonotone(c, AtFirst(interval, m), t.Size(LOST));
      FirstHit(t, interval, a, w, m, j);
    } else {
      LaterLevelsAre(interval);
      BelowLevel(Counted(t, w, j, 0) * 100, |t.image|, interval + 1);
    }
  }

  lemma FirstHit(t: Transfer, interval: nat, a: nat, w: nat, m: nat, j: nat)
    requires Driftable(t, interval, a, w, m) && Small(t) && w <= j <= Final(t) + 1 && JustReached(t, w, j, 0, interval)
    ensures Counted(t, w, j, 0) <= a * PACKET_SIZE + t.Size(LOST)
  {
    DriftFacts(t, interval, a, w, m);
    SmallFacts(t);
    FewerOthers(j - w, a, t.Size(LOST), interval * |t.image|);
  }

  lemma FewerOthers(x: nat, a: nat, lost: nat, bound: nat)
    requires (x * PACKET_SIZE + lost - PACKET_SIZE) * 100 < bound <= (a * PACKET_SIZE + lost) * 100
    ensures x <= a
  {
  }

  lemma QuotientFloor(x: nat, d: nat)
    requires 0 < d
    ensures (x / d) * d <= x
  {
  }

  lemma {:induction false} CountOften(t: Transfer, n: Node, a: nat, w: nat, m: nat, j: nat, c: nat, often: nat)
    returns (ops: seq<Op>, n': Node)
    requires Driftable(t, n.interval, a, w, m) && c <= often <= AtFirst(n.interval, m) && AtLevel(t, n, w, j, c, n.interval)
    requires 0 <= Counted(t, w, j, 0) && Percentage(Counted(t, w, j, 0), |t.image|) == n.interval
    requires JustReached(t, w, j, 0, n.interval)
    ensures LeadsTo(t, n, ops, n') && AtLevel(t, n', w, j, often, n.interval) && n'.interval == n.interval
    decreases often - c
  {
    if c == often {
      LeadsNowhere(t, n);
      ops, n' := [], n;
    } else {
      StillFirst(t, n.interval, a, w, m, j, c + 1);
      var once, n1 := Recount(t, n, w, j, c, n.interval);
      var more;
      more, n' := CountOften(t, n1, a, w, m, j, c + 1, often);
      LeadsOn(t, n, once, n1, more, n');
      ops := once + more;
    }
  }

  // ---------- recounts at the later levels ----------

  /** There is room for the recounts that remain and one more packet. */
  lemma RoomLeft(t: Transfer, interval: nat, a: nat, w: nat, m: nat, c: nat, k: nat)
    requires Driftable(t, interval, a, w, m) && c < m && 2 <= k && m - c + k <= 99 / interval + 1
    ensures k * interval <= 99
    ensures k * interval * |t.image| <= (|t.image| - Rest(t, m, c) - PACKET_SIZE) * 100
  {
    DriftFacts(t, interval, a, w, m);
    LevelsFit(interval, k, m - c);
    RestBound(t, m, c);
    Enough(|t.image|, k * interval, m - c);
  }

  lemma LevelsFit(interval: nat, k: nat, recounts: nat)
    requires 1 <= interval && 2 <= k && 1 <= recounts && recounts + k <= 99 / interval + 1
    ensures k * interval <= 99 && recounts <= 100 - k * interval
  {
    QuotientMeaning(99, interval);
    MulMonotone(k + (recounts - 1), 99 / interval, interval);
    MulMonotone(1, interval, recounts - 1);
    assert (k + (recounts - 1)) * interval == k * interval + (recounts - 1) * interval;
  }

  lemma RestBound(t: Transfer, m: nat, c: nat)
    requires c <= m && t.Size(LOST) <= PACKET_SIZE
    ensures Rest(t, m, c) <= (m - c) * PACKET_SIZE
  {
    MulMonotone(t.Size(LOST), PACKET_SIZE, m - c);
  }

  lemma Enough(size: nat, level: nat, recounts: nat)
    requires LOST * PACKET_SIZE < size && level <= 99 && recounts <= 100 - level
    ensures level * size <= (size - recounts * PACKET_SIZE - PACKET_SIZE) * 100
  {
    var left := 100 - level;
    MulMonotone(2 * 102400, size, left);
    assert level * size + left * size == 100 * size;
  }

  /** The next level after a recount. */
  lemma NextLevel(interval: nat, k: nat)
    requires 1 <= interval && 2 <= k
    ensures interval < k * interval
    ensures (k * interval / interval + 1) * interval == k * interval + interval == (k + 1) * interval
  {
    MulMonotone(2, k, interval);
    QuotientAbove(k * interval, interval, k);
    OnceMore(k, interval);
    QuotientBelow(k * interval, interval, k);
  }

  /** A snapshot at a later level and a recount. */
  lemma OneLevel(t: Transfer, n: Node, a: nat, w: nat, m: nat, j: nat, c: nat, k: nat)
    returns (ops: seq<Op>, j': nat, n': Node)
    requires Driftable(t, n.interval, a, w, m) && c < m && 2 <= k && m - c + k <= 99 / n.interval + 1
    requires Aiming(t, n, w, j, c, k * n.interval) && j <= Final(t)
    ensures LeadsTo(t, n, ops, n') && Aiming(t, n', w, j', c + 1, (k + 1) * n.interval) && j' <= Final(t)
    ensures n'.interval == n.interval
  {
    var up, n1;
    up, j', n1 := UpTo(t, n, a, w, m, j, c, k);
    var once;
    once, n' := Recount(t, n1, w, j', c, k * n.interval);
    LeadsOn(t, n, up, n1, once, n');
    ops := up + once;
    JustAbove(t, n.interval, a, w, m, j', c, k * n.interval);
    Above(t, n', w, j', c + 1, k);
  }

  lemma Above(t: Transfer, n: Node, w: nat, j: nat, c: nat, k: nat)
    requires t.Valid() && LOST < t.PacketNum() && Counting(t, n, w, j, c) && GetBit(n.config.value.bitmap, LOST)
    requires j <= Final(t) && 1 <= n.interval < 100 && 2 <= k && 0 <= Counted(t, w, j, c)
    requires var percentage := Percentage(Counted(t, w, j, c), |t.image|);
             && percentage == k * n.interval
             && (percentage > n.interval ==> n.nextPercentage == (percentage / n.interval + 1) * n.interval)
    ensures Aiming(t, n, w, j, c, (k + 1) * n.interval)
  {
    NextLevel(n.interval, k);
  }

  /** The snapshot at a later level. */
  lemma UpTo(t: Transfer, n: Node, a: nat, w: nat, m: nat, j: nat, c: nat, k: nat)
    returns (ops: seq<Op>, j': nat, n': Node)
    requires Driftable(t, n.interval, a, w, m) && c < m && 2 <= k && m - c + k <= 99 / n.interval + 1
    requires Aiming(t, n, w, j, c, k * n.interval) && j <= Final(t)
    ensures LeadsTo(t, n, ops, n') && AtLevel(t, n', w, j', c, k * n.interval) && n'.interval == n.interval
    ensures JustReached(t, w, j', c, k * n.interval) && j' <= Final(t) && Counted(t, w, j', c + 1) < |t.image|
  {
    RoomLeft(t, n.interval, a, w, m, c, k);
    ops, j', n' := ToLevel(t, n, n.interval, a, w, m, j, c, k * n.interval);
    SameInterval(t, n, ops);
    CountedAll(t, n.interval, a, w, m, c);
    CountedBounds(t, n.interval, a, w, m, j', c + 1);
    CountedAll(t, n.interval, a, w, m, c + 1);
  }

  lemma JustAbove(t: Transfer, interval: nat, a: nat, w: nat, m: nat, j: nat, c: nat, level: nat)
    requires Driftable(t, interval, a, w, m) && JustReached(t, w, j, c, level)
    requires 0 <= Counted(t, w, j, c) && Percentage(Counted(t, w, j, c), |t.image|) == level
    ensures 0 <= Counted(t, w, j, c + 1) && Percentage(Counted(t, w, j, c + 1), |t.image|) == level
  {
    DriftFacts(t, interval, a, w, m);
    CountedAgain(t, w, j, c);
    OnceMore(level, |t.image|);
    Within(Counted(t, w, j, c), Counted(t, w, j, c + 1), |t.image|, level);
  }

  /** One recount at each level, until all are done. */
  lemma {:induction false} LaterRecounts(t: Transfer, n: Node, a: nat, w: nat, m: nat, j: nat, c: nat, k: nat)
    returns (ops: seq<Op>, j': nat, n': Node)
    requires Driftable(t, n.interval, a, w, m) && c <= m && 2 <= k && m - c + k <= 99 / n.interval + 1
    requires Aiming(t, n, w, j, c, k * n.interval) && j <= Final(t)
    ensures LeadsTo(t, n, ops, n') && Counting(t, n', w, j', m) && j' <= Final(t)
    decreases m - c
  {
    if c == m {
      LeadsNowhere(t, n);
      ops, j', n' := [], j, n;
    } else {
      var once, j1, n1 := OneLevel(t, n, a, w, m, j, c, k);
      var more;
      more, j', n' := LaterRecounts(t, n1, a, w, m, j1, c + 1, k + 1);
      LeadsOn(t, n, once, n1, more, n');
      ops := once + more;
    }
  }

  /** All recounts but those at the first level. */
  lemma Recounts(t: Transfer, n: Node, a: nat, w: nat, m: nat, j: nat) returns (ops: seq<Op>, j': nat, n': Node)
    requires Driftable(t, n.interval, a, w, m) && j <= Final(t)
    requires AtLevel(t, n, w, j, AtFirst(n.interval, m), n.interval)
    ensures LeadsTo(t, n, ops, n') && Counting(t, n', w, j', m) && j' <= Final(t)
  {
    var c := AtFirst(n.interval, m);
    LaterLevelsAre(n.interval);
    if n.interval == 1 {
      ops, j', n' := LaterRecounts(t, n, a, w, m, j, c, 2);
    } else {
      CountedBounds(t, n.interval, a, w, m, j, c + 1);
      CountedAll(t, n.interval, a, w, m, c + 1);
      var once, n1 := Recount(t, n, w, j, c, n.interval);
      PastFirst(t, n, w, j, c, n1);
      var more;
      more, j', n' := LaterRecounts(t, n1, a, w, m, j, c + 1, 2);
      LeadsOn(t, n, once, n1, more, n');
      ops := once + more;
    }
  }

  /** After a recount at the first level the second one is next. */
  lemma PastFirst(t: Transfer, n: Node, w: nat, j: nat, c: nat, n': Node)
    requires t.Valid() && LOST < t.PacketNum() && AtLevel(t, n, w, j, c, n.interval) && 2 <= n.interval
    requires Counting(t, n', w, j, c + 1) && j <= Final(t) && GetBit(n'.config.value.bitmap, LOST) && n'.interval == n.interval
    requires 0 <= Counted(t, w, j, c + 1) && 0 <= Counted(t, w, j, c)
    requires var percentage := Percentage(Counted(t, w, j, c + 1), |t.image|);
             && (percentage == n.interval ==> AtLevel(t, n', w, j, c + 1, n.interval))
             && (percentage > n.interval ==> n'.nextPercentage == (percentage / n.interval + 1) * n.interval)
    ensures Aiming(t, n', w, j, c + 1, 2 * n.interval)
  {
    t.SliceBounds(LOST);
    CountedAgain(t, w, j, c);
    PercentageStep(Counted(t, w, j, c), t.Size(LOST), |t.image|);
    Grows(Counted(t, w, j, c), Counted(t, w, j, c + 1), |t.image|);
    SecondLevel(n.interval);
  }

  lemma Grows(x: nat, y: nat, total: nat)
    requires 0 < total && x <= y
    ensures Percentage(x, total) <= Percentage(y, total)
  {
    QuotientFloor(x * 100, total);
    QuotientAbove(y * 100, total, Percentage(x, total));
  }

  lemma SecondLevel(interval: nat)
    requires 2 <= interval
    ensures ((interval + 1) / interval + 1) * interval == 2 * interval
  {
    QuotientBelow(interval + 1, interval, 1);
    QuotientAbove(interval + 1, interval, 1);
  }

  // ---------- the rest ----------

  /** All the packets that have not arrived yet, except for the first w and the final one. */
  lemma {:induction false} AllTheRest(t: Transfer, n: Node, interval: nat, a: nat, w: nat, m: nat, j: nat)
    returns (ops: seq<Op>, n': Node)
    requires Driftable(t, interval, a, w, m) && Counting(t, n, w, j, m) && j <= Final(t)
    ensures LeadsTo(t, n, ops, n') && Counting(t, n', w, Final(t), m)
    decreases t.PacketNum() - j
  {
    if j == Final(t) {
      LeadsNowhere(t, n);
      ops, n' := [], n;
    } else if j == LOST {
      CountedMore(t, w, j, m);
      ops, n' := AllTheRest(t, n, interval, a, w, m, j + 1);
    } else {
      CountedBounds(t, interval, a, w, m, j + 1, m);
      DeliverNext(t, n, w, j, m);
      LeadsOne(t, n, Data(j, true));
      var n1 := Apply(t, n, Data(j, true)).0;
      var rest;
      rest, n' := AllTheRest(t, n1, interval, a, w, m, j + 1);
      LeadsOn(t, n, [Data(j, true)], n1, rest, n');
      ops := [Data(j, true)] + rest;
    }
  }

  /** This packet completes the count. */
  ghost predicate Completes(t: Transfer, n: Node, last: nat)
    requires t.Valid() && WellFormed(n)
  {
    && 0 < last < t.PacketNum()
    && var (n', reports) := Apply(t, n, Data(last, true));
       && n'.bootsUpdate && FirstErased(t, n'.update)
       && |reports| == 1 && reports[0].writtenSize == reports[0].totalSize == |t.image|
  }

  lemma FinalCompletes(t: Transfer, n: Node, interval: nat, a: nat, w: nat, m: nat)
    requires Driftable(t, interval, a, w, m) && Counting(t, n, w, Final(t), m)
    ensures Completes(t, n, Final(t))
  {
    CountedAll(t, interval, a, w, m, m);
    CountedMore(t, w, Final(t), m);
    DriftFacts(t, interval, a, w, m);
    DeliverLast(t, n, Final(t));
  }

  /** If the packets run out at the first level, a single recount is left. */
  lemma OneRecountLeft(t: Transfer, interval: nat, a: nat, w: nat, m: nat)
    requires Driftable(t, interval, a, w, m) && JustReached(t, w, Final(t) + 1, 0, interval)
    ensures AtFirst(interval, m) + 1 == m
  {
    DriftFacts(t, interval, a, w, m);
    CountedAll(t, interval, a, w, m, 0);
    LaterLevelsAre(interval);
    FewBytesLeft(t, interval, a, w, m);
    LastInterval(|t.image|, interval, Rest(t, m, 0));
  }

  lemma FewBytesLeft(t: Transfer, interval: nat, a: nat, w: nat, m: nat)
    requires Driftable(t, interval, a, w, m)
    ensures Rest(t, m, 0) * 100 <= |t.image| + LaterLevels(interval) * PACKET_SIZE * 100
  {
    DriftFacts(t, interval, a, w, m);
    var again, p := AtFirst(interval, m), t.Size(LOST);
    assert m * p == again * p + (m - again) * p;
    MulMonotone(m - again, LaterLevels(interval), p);
    MulMonotone(p, PACKET_SIZE, LaterLevels(interval));
    OnceMore(interval, |t.image|);
  }

  lemma LastInterval(size: nat, interval: nat, left: int)
    requires LOST * PACKET_SIZE < size && 1 <= interval < 100
    requires (size - left - PACKET_SIZE) * 100 < interval * size
    requires left * 100 <= size + LaterLevels(interval) * PACKET_SIZE * 100
    ensures interval == 99
  {
    LaterLevelsAre(interval);
    assert (99 - interval) * size == 99 * size - interval * size;
    if interval <= 98 {
      MulMonotone(if interval < 50 then 50 else 1, 99 - interval, size);
    }
  }

  lemma LostCompletes(t: Transfer, n: Node, interval: nat, a: nat, w: nat, m: nat, level: nat) returns (ops: seq<Op>, n': Node)
    requires Driftable(t, interval, a, w, m) && 0 < m && AtLevel(t, n, w, Final(t) + 1, m - 1, level)
    ensures LeadsTo(t, n, ops, n') && Completes(t, n', LOST)
  {
    ops, n' := Restart(t, n, w, Final(t) + 1, m - 1, level);
    CountedAll(t, interval, a, w, m, m - 1);
    DriftFacts(t, interval, a, w, m);
    OnceMore(0, t.Size(LOST));
    DeliverLast(t, n', LOST);
  }

  /** Wherever the count can be made up there is a run with m restarts after which a device, with
      the last packet it receives, reports completion and selects its update partition for
      booting, although packet 0 has never reached it. Unless that packet is all 0xFF, the image
      is not there; before that packet nothing was selected. */
  lemma IncompleteImageBoots(t: Transfer, n: Node, a: nat, w: nat, m: nat) returns (ops: seq<Op>, last: nat)
    requires Driftable(t, n.interval, a, w, m) && Initial(t, n) && !n.isRoot
    ensures Withheld(t, ops) && Hidden(t, Asked(t, n), ops) && 0 < last < t.PacketNum()
    ensures var (n', reports) := Apply(t, Run(t, Asked(t, n), ops), Data(last, true));
            && n'.bootsUpdate && FirstErased(t, n'.update)
            && |reports| == 1 && reports[0].writtenSize == reports[0].totalSize == |t.image|
            && (Installed(t, n'.update) ==> FirstErased(t, t.image))
  {
    var n1 := Asked(t, n);
    var n4;
    ops, n4, last := UpToLast(t, n, a, w, m);
    var flash := Apply(t, n4, Data(last, true)).0.update;
    if Installed(t, flash) {
      SameAsImage(t, flash);
    }
  }

  lemma UpToLast(t: Transfer, n: Node, a: nat, w: nat, m: nat) returns (ops: seq<Op>, n': Node, last: nat)
    requires Driftable(t, n.interval, a, w, m) && Initial(t, n) && !n.isRoot
    ensures LeadsTo(t, Asked(t, n), ops, n') && Completes(t, n', last)
  {
    var n1 := Asked(t, n);
    var first, j, n2 := FirstSnapshot(t, n, a, w, m);
    var often, n3 := CountOften(t, n2, a, w, m, j, 0, AtFirst(n.interval, m));
    LeadsOn(t, n1, first, n2, often, n3);
    if j == Final(t) + 1 {
      OneRecountLeft(t, n.interval, a, w, m);
      var end;
      end, n' := LostCompletes(t, n3, n.interval, a, w, m, n.interval);
      LeadsOn(t, n1, first + often, n3, end, n');
      ops, last := first + often + end, LOST;
    } else {
      var later, j', n4 := Recounts(t, n3, a, w, m, j);
      LeadsOn(t, n1, first + often, n3, later, n4);
      var rest;
      rest, n' := AllTheRest(t, n4, n.interval, a, w, m, j');
      LeadsOn(t, n1, first + often + later, n4, rest, n');
      FinalCompletes(t, n', n.interval, a, w, m);
      ops, last := first + often + later + rest, Final(t);
    }
  }

  lemma SameAsImage(t: Transfer, flash: seq<Byte>)
    requires t.Valid() && FirstErased(t, flash) && Installed(t, flash)
    ensures FirstErased(t, t.image)
  {
  }

  // ---------- exactly when only complete images are booted ----------

  /** Whatever happens to a device, what it has selected for booting is the complete image. */
  ghost predicate BootsOnlyComplete(t: Transfer, interval: nat)
    requires t.Valid()
  {
    forall n: Node, ops: seq<Op> | Initial(t, n) && n.interval == interval && WellFormed(n) ::
      Run(t, n, ops).bootsUpdate ==> Installed(t, Run(t, n, ops).update)
  }

  lemma Drifts(t: Transfer, interval: nat) returns (a: nat, w: nat, m: nat)
    requires t.Valid() && 1 <= interval && CanDrift(|t.image|, interval)
    ensures Driftable(t, interval, a, w, m)
  {
    if Small(t) {
      a, w, m :| MakesUp(|t.image|, interval, a, w, m);
    } else {
      w, m := 1, 1;
      a := FullDrifts(|t.image|, interval);
    }
  }

  lemma HarmlessBootsOnlyComplete(t: Transfer, interval: nat)
    requires t.Valid() && 1 <= interval && !CanDrift(|t.image|, interval)
    ensures BootsOnlyComplete(t, interval)
  {
    forall n: Node, ops: seq<Op> | Initial(t, n) && n.interval == interval && WellFormed(n)
      ensures Run(t, n, ops).bootsUpdate ==> Installed(t, Run(t, n, ops).update)
    {
      if Resumable(t, interval) {
        InitialInv(t, n);
        RunKeepsInv(t, n, ops);
      } else {
        SmallOrDrifts(t, interval);
        InitialSafe(t, n);
        RunSafe(t, n, ops);
        SafeBoots(t, Run(t, n, ops));
      }
    }
  }

  lemma SomeImageDoesNot(t: Transfer, interval: nat)
    requires t.Valid() && 1 <= interval && CanDrift(|t.image|, interval) && t.image[0] != 0xFF
    ensures !BootsOnlyComplete(t, interval)
  {
    var n := Node(false, interval, t.image, t.image, false, None, None, false, interval);
    var a, w, m := Drifts(t, interval);
    var ops, last := IncompleteImageBoots(t, n, a, w, m);
    var end := [Data(last, true)];
    RunConcat(t, Asked(t, n), ops, end);
    RunCons(t, Run(t, Asked(t, n), ops), Data(last, true), []);
    assert end + [] == end;
    RunCons(t, n, Ask, ops + end);
    assert Run(t, n, [Ask] + (ops + end)).bootsUpdate;
  }

  /** Restarts included, devices boot only complete images, whatever image of this size is sent, if
      and only if the count cannot be made up. */
  lemma OnlyCompleteImagesBootIff(size: nat, interval: nat)
    requires 0 < size <= PACKET_SIZE * PACKET_NUM && 1 <= interval
    ensures !CanDrift(size, interval) <==> forall t: Transfer | |t.image| == size :: BootsOnlyComplete(t, interval)
  {
    if !CanDrift(size, interval) {
      forall t: Transfer | |t.image| == size ensures BootsOnlyComplete(t, interval) {
        HarmlessBootsOnlyComplete(t, interval);
      }
    } else {
      var t := Transfer("", seq(size, _ => 0));
      assert |t.image| == size;
      SomeImageDoesNot(t, interval);
    }
  }

  // ---------- the opposite: never done ----------

  /** The device holds every packet and has counted more than there is. */
  ghost predicate Stuck(t: Transfer, n: Node)
    requires t.Valid()
  {
    && WellFormed(n) && Downloading(t, n) && !n.isRoot && !n.bootsUpdate
    && (forall k: nat | k < t.PacketNum() :: GetBit(n.config.value.bitmap, k))
    && n.config.value.writtenSize > |t.image|
  }

  /** Requests and packets never get it out of there: every report is incomplete and shows no gap. */
  lemma StuckStays(t: Transfer, n: Node, op: Op)
    requires t.Valid() && Stuck(t, n) && Steady(op)
    ensures var (n', reports) := Apply(t, n, op);
            && Stuck(t, n')
            && forall r | r in reports ::
                 && r.writtenSize != r.totalSize && r.writtenSize != 0 && |r.bitmap| == BITMAP_SIZE
                 && forall k: nat | k < t.PacketNum() :: GetBit(r.bitmap, k)
  {
  }

  /** Downloading with more counted than is held, by whole packets, and without the last one. */
  ghost predicate Overcounted(t: Transfer, n: Node, k: nat)
    requires t.Valid()
  {
    && WellFormed(n) && Downloading(t, n) && !n.isRoot && !n.bootsUpdate && |t.image| <= |n.update|
    && n.config.value.writtenSize % PACKET_SIZE == 0
    && n.config.value.writtenSize > SizeSum(t, n.config.value.bitmap, t.PacketNum())
    && (forall i: nat | i < k && i < t.PacketNum() - 1 :: GetBit(n.config.value.bitmap, i))
    && !GetBit(n.config.value.bitmap, t.PacketNum() - 1)
  }

  lemma NotYetDone(written: nat, total: nat)
    requires written % PACKET_SIZE == 0 && total % PACKET_SIZE != 0
    ensures written + PACKET_SIZE != total && (written + PACKET_SIZE) % PACKET_SIZE == 0
  {
  }

  /** A new packet that does not complete the count. */
  lemma Stores(t: Transfer, n: Node, k: nat)
    requires t.Valid() && WellFormed(n) && Downloading(t, n) && |t.image| <= |n.update| && k < t.PacketNum()
    requires !GetBit(n.config.value.bitmap, k) && n.config.value.writtenSize + t.Size(k) != |t.image|
    ensures var n' := Apply(t, n, Data(k, true)).0;
            var c := n.config.value;
            && n'.config == Some(c.(bitmap := WithBit(c.bitmap, k), writtenSize := c.writtenSize + t.Size(k)))
            && n'.isRoot == n.isRoot && n'.bootsUpdate == n.bootsUpdate && |n'.update| == |n.update|
  {
    t.SliceBounds(k);
    AcceptSteps(t, n, n.config.value, k, true);
  }

  lemma BitsAfter(bits: seq<Byte>, k: nat)
    requires |bits| == BITMAP_SIZE && k < PACKET_NUM
    ensures forall i: nat | i < PACKET_NUM :: GetBit(WithBit(bits, k), i) <==> GetBit(bits, i) || i == k
  {
    forall i: nat | i < PACKET_NUM ensures GetBit(WithBit(bits, k), i) <==> GetBit(bits, i) || i == k {
      GetWithBit(bits, k, i);
    }
  }

  lemma FillOne(t: Transfer, n: Node, k: nat)
    requires t.Valid() && |t.image| % PACKET_SIZE != 0 && Overcounted(t, n, k) && k < t.PacketNum() - 1
    ensures Overcounted(t, Apply(t, n, Data(k, true)).0, k + 1)
  {
    t.SliceBounds(k);
    var bits := n.config.value.bitmap;
    if !GetBit(bits, k) {
      NotYetDone(n.config.value.writtenSize, |t.image|);
      SizeSumWithBit(t, bits, k, t.PacketNum());
      Stores(t, n, k);
      BitsAfter(bits, k);
    }
  }

  lemma {:induction false} FillUp(t: Transfer, n: Node, k: nat) returns (ops: seq<Op>)
    requires t.Valid() && |t.image| % PACKET_SIZE != 0 && Overcounted(t, n, k)
    ensures Stuck(t, Run(t, n, ops))
    decreases t.PacketNum() - k
  {
    var op := Data(k, true);
    var rest;
    if k < t.PacketNum() - 1 {
      FillOne(t, n, k);
      rest := FillUp(t, Apply(t, n, op).0, k + 1);
    } else {
      op := Data(t.PacketNum() - 1, true);
      FillLast(t, n, k);
      rest := [];
    }
    RunCons(t, n, op, rest);
    ops := [op] + rest;
  }

  lemma FillLast(t: Transfer, n: Node, k: nat)
    requires t.Valid() && Overcounted(t, n, k) && k >= t.PacketNum() - 1
    ensures Stuck(t, Apply(t, n, Data(t.PacketNum() - 1, true)).0)
  {
    var last := t.PacketNum() - 1;
    var bits := n.config.value.bitmap;
    SizeSumWithBit(t, bits, last, t.PacketNum());
    BitsAfter(bits, last);
    CompleteIffAllBits(t, WithBit(bits, last));
    Stores(t, n, last);
  }

  lemma RestoredLess(t: Transfer, c: Status)
    requires t.Valid() && LOST < t.PacketNum() && |c.bitmap| == BITMAP_SIZE && GetBit(c.bitmap, LOST)
    ensures SizeSum(t, Restore(Save(c)).bitmap, t.PacketNum()) < SizeSum(t, c.bitmap, t.PacketNum())
  {
    var r := Restore(Save(c));
    forall k: nat | k < t.PacketNum() ensures GetBit(r.bitmap, k) <==> GetBit(c.bitmap, k) && k < LOST {
      RestoredBits(c, k);
    }
    SizeSumDrops(t, c.bitmap, r.bitmap, LOST, t.PacketNum());
  }

  lemma CountedWhole(t: Transfer, j: nat)
    requires t.Valid() && LOST < t.PacketNum() - 1 && 1 <= j <= Final(t)
    ensures Counted(t, 1, j, 0) % PACKET_SIZE == 0 && j <= t.PacketNum() - 1
  {
    t.SliceBounds(LOST);
    assert t.Size(LOST) == PACKET_SIZE;
  }

  lemma PacketsLeft(t: Transfer, interval: nat, a: nat, j: nat)
    requires Driftable(t, interval, a, 1, 1) && j <= Final(t) + 1 && JustReached(t, 1, j, 0, interval)
    ensures j <= Final(t)
  {
    CountedAll(t, interval, a, 1, 1, 0);
    MulMonotone(interval, 99, |t.image|);
  }

  lemma ResumeOvercounts(t: Transfer, n: Node, j: nat)
    requires t.Valid() && LOST < t.PacketNum() - 1 && AtLevel(t, n, 1, j, 0, n.interval) && UpgradeInvariant.Inv(t, n)
    requires j <= Final(t)
    ensures Overcounted(t, Apply(t, Apply(t, n, Reboot).0, Ask).0, 0)
  {
    Resume(t, n, 1, j, 0, n.interval);
    RestoredLess(t, n.config.value);
    CountedWhole(t, j);
    RestoredBits(n.config.value, t.PacketNum() - 1);
  }

  /** For every image with a packet behind packet 3968 whose last packet is not a full one, and
      every report interval below 100 percent, there is a run after which the device has received
      every packet and neither requests nor packets will ever complete it. */
  lemma StuckDevice(t: Transfer, n: Node) returns (ops: seq<Op>)
    requires t.Valid() && LOST < t.PacketNum() - 1 && |t.image| % PACKET_SIZE != 0
    requires Initial(t, n) && !n.isRoot && n.interval < 100
    ensures Stuck(t, Run(t, n, ops))
  {
    var n1 := Asked(t, n);
    var x := FullDrifts(|t.image|, n.interval);
    var a, j, n2 := FirstSnapshot(t, n, x, 1, 1);
    PacketsLeft(t, n.interval, x, j);
    InitialInv(t, n);
    ApplyKeepsInv(t, n, Ask);
    RunKeepsInv(t, n1, a);
    ResumeOvercounts(t, n2, j);
    var n3 := Apply(t, n2, Reboot).0;
    var fill := FillUp(t, Apply(t, n3, Ask).0, 0);
    RunCons(t, n3, Ask, fill);
    RunCons(t, n2, Reboot, [Ask] + fill);
    RunConcat(t, n1, a, [Reboot] + ([Ask] + fill));
    RunCons(t, n, Ask, a + ([Reboot] + ([Ask] + fill)));
    ops := [Ask] + (a + ([Reboot] + ([Ask] + fill)));
  }
}
