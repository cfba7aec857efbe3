/** How often packet 3968 can be counted too often. A restart forgets that it was received but not
    that it was counted; but a snapshot, from which a restart resumes, is taken only at certain
    percentages. Unless missing packets can be made up for that way, restarts never lead to an
    incomplete image being selected for booting. What takes proof is the case that packet 3968 is
    the last one and not a full one. */
module UpgradeLimits {
  import opened Prelude
  import opened Flash
  import opened Bitmap
  import opened UpgradeNode
  import opened UpgradeInvariant
  import opened UpgradeRuns
  import opened UpgradeResume

  // ---------- the condition ----------

  /** The levels above the first one at which a snapshot can be followed by a recount; for an
      interval of 1 percent a recount above the first level skips the second one. */
  function LaterLevels(interval: nat): nat {
    if interval == 1 then 98 else if interval == 0 then 0 else 99 / interval
  }

  /** The size of packet 3968. */
  function LostSize(size: nat): nat
    requires LOST * PACKET_SIZE < size
  {
    Min(PACKET_SIZE, size - LOST * PACKET_SIZE)
  }

  /** How many of m recounts the later levels leave for the first one. */
  function AtFirst(interval: nat, m: nat): nat {
    if m <= LaterLevels(interval) then 0 else m - LaterLevels(interval)
  }

  /** Counting packet 3968 m times too often makes up for w missing packets; there is a snapshot
      at the first level with a other packets, and room for as many recounts at this level as the
      later ones leave over. */
  ghost predicate MakesUp(size: nat, interval: nat, a: nat, w: nat, m: nat)
    requires LOST * PACKET_SIZE < size
  {
    var p := LostSize(size);
    && 0 < w && 0 < m && m * p == w * PACKET_SIZE
    && (a + w) * PACKET_SIZE + p <= size
    && interval * size <= (a * PACKET_SIZE + p) * 100
    && (a * PACKET_SIZE + p + AtFirst(interval, m) * p) * 100 < (interval + 1) * size
  }

  /** Restarts can make up for missing packets. The size bounds a and w, and these bound m. */
  ghost predicate CanDrift(size: nat, interval: nat) {
    LOST * PACKET_SIZE < size && interval < 100 && exists a, w, m :: MakesUp(size, interval, a, w, m)
  }

  // ---------- the books of one download ----------

  /** Packet 3968 is the last one and not a full one. */
  ghost predicate Small(t: Transfer) {
    LOST * PACKET_SIZE < |t.image| < (LOST + 1) * PACKET_SIZE
  }

  lemma SmallFacts(t: Transfer)
    requires Small(t)
    ensures t.Valid() && t.PacketNum() == LOST + 1 && 0 < t.Size(LOST) < PACKET_SIZE
    ensures |t.image| == LOST * PACKET_SIZE + t.Size(LOST) && t.Size(LOST) == LostSize(|t.image|)
    ensures forall k: nat | k < LOST :: t.Size(k) == PACKET_SIZE
  {
  }

  /** `count` is how often packet 3968 has been counted and `saved` the same in the snapshot, taken
      at the multiple `level` of the interval. The next one is due at the multiple `next`. At the
      first level there was a snapshot with `first` other packets and at most `top` counts. */
  datatype Books = Books(count: nat, saved: nat, level: nat, next: nat, first: nat, top: nat)

  /** How many packets below k are held. */
  ghost function Number(bits: seq<Byte>, k: nat): (r: nat)
    requires k <= 8 * |bits|
    ensures r <= k
  {
    if k == 0 then 0 else Number(bits, k - 1) + if GetBit(bits, k - 1) then 1 else 0
  }

  lemma {:induction false} NumberWithBit(bits: seq<Byte>, j: nat, k: nat)
    requires k <= 8 * |bits| && j < 8 * |bits| && !GetBit(bits, j)
    ensures Number(WithBit(bits, j), k) == Number(bits, k) + if j < k then 1 else 0
  {
    if k > 0 {
      GetWithBit(bits, j, k - 1);
      NumberWithBit(bits, j, k - 1);
    }
  }

  lemma {:induction false} NumberMonotone(a: seq<Byte>, b: seq<Byte>, k: nat)
    requires k <= 8 * |a| && k <= 8 * |b| && Includes(a, b, k)
    ensures Number(a, k) <= Number(b, k)
  {
    if k > 0 {
      NumberMonotone(a, b, k - 1);
    }
  }

  lemma {:induction false} NumberFull(bits: seq<Byte>, k: nat)
    requires k <= 8 * |bits|
    ensures Number(bits, k) == k <==> forall j: nat | j < k :: GetBit(bits, j)
  {
    if k > 0 {
      NumberFull(bits, k - 1);
    }
  }

  lemma {:induction false} NumberZeros(n: nat, k: nat)
    requires k <= 8 * n
    ensures Number(Zeros(n), k) == 0
  {
    if k > 0 {
      MembersZeros(n);
      assert k - 1 !in Members(Zeros(n));
      NumberZeros(n, k - 1);
    }
  }

  ghost predicate Includes(a: seq<Byte>, b: seq<Byte>, k: nat)
    requires k <= 8 * |a| && k <= 8 * |b|
  {
    forall j: nat | j < k && GetBit(a, j) :: GetBit(b, j)
  }

  /** What is counted: the other packets held, and packet 3968 that often. */
  function Sum(t: Transfer, others: nat, count: nat): nat {
    others * PACKET_SIZE + count * t.Size(LOST)
  }

  lemma SumMore(t: Transfer, others: nat, count: nat)
    ensures Sum(t, others + 1, count) == Sum(t, others, count) + PACKET_SIZE
    ensures Sum(t, others, count + 1) == Sum(t, others, count) + t.Size(LOST)
  {
    assert (count + 1) * t.Size(LOST) == count * t.Size(LOST) + t.Size(LOST);
  }

  lemma SumMonotone(t: Transfer, a: nat, x: nat, b: nat, y: nat)
    requires a <= b && x <= y
    ensures Sum(t, a, x) <= Sum(t, b, y)
  {
    MulMonotone(x, y, t.Size(LOST));
  }

  function Percent(t: Transfer, written: nat): nat
    requires 0 < |t.image|
  {
    Percentage(written, |t.image|)
  }

  ghost predicate InTransfer(t: Transfer, c: Status) {
    && c.name == t.name && c.totalSize == |t.image| && |c.bitmap| == BITMAP_SIZE
    && c.errorCode != MDF_ERR_MUPGRADE_STOP
  }

  ghost predicate Counts(t: Transfer, c: Status, count: nat)
    requires |c.bitmap| == BITMAP_SIZE
  {
    c.writtenSize == Sum(t, Number(c.bitmap, LOST), count) && (GetBit(c.bitmap, LOST) ==> 1 <= count)
  }

  ghost predicate OnFlash(t: Transfer, c: Status, flash: seq<Byte>, count: nat)
    requires |c.bitmap| == BITMAP_SIZE
  {
    && Programmable(t, flash)
    && (forall k: nat | k < LOST && GetBit(c.bitmap, k) :: SliceOk(t, flash, k))
    && (1 <= count ==> SliceOk(t, flash, LOST))
  }

  /** 1 if packet 3968 may be counted again. */
  ghost function Gap(c: Status): nat
    requires |c.bitmap| == BITMAP_SIZE
  {
    if GetBit(c.bitmap, LOST) then 0 else 1
  }

  /** There can be a snapshot at the first level with `first` other packets and `top` counts. */
  ghost predicate Window(t: Transfer, interval: nat, first: nat, top: nat) {
    && 1 <= top
    && interval * |t.image| <= Sum(t, first, 1) * 100
    && Sum(t, first, top) * 100 < (interval + 1) * |t.image|
  }

  /** How many more counts a snapshot at a later level can have. */
  function More(interval: nat, level: nat): nat {
    if interval == 1 then (if level < 2 then 0 else level - 2) else if level < 1 then 0 else level - 1
  }

  ghost predicate BeforeFirst(t: Transfer, n: Node, c: Status, s: Status, b: Books)
    requires 0 < |t.image| && |c.bitmap| == BITMAP_SIZE
  {
    && b.level == 0 && s.writtenSize == 0 && b.saved == 0
    && n.nextPercentage == n.interval && Percent(t, c.writtenSize) < n.interval
    && b.count + Gap(c) <= 1
  }

  /** A snapshot taken at a level. */
  ghost predicate Taken(t: Transfer, interval: nat, s: Status, b: Books)
    requires 0 < |t.image| && |s.bitmap| == BITMAP_SIZE
  {
    && 1 <= b.level && Percent(t, s.writtenSize) == b.level * interval
    && Window(t, interval, b.first, b.top) && b.first <= Number(s.bitmap, LOST)
    && b.saved <= b.top + More(interval, b.level)
  }

  /** Nothing has been accepted since the restart. */
  ghost predicate Restarted(n: Node, c: Status, s: Status, b: Books) {
    && n.nextPercentage == n.interval
    && c.bitmap == s.bitmap && c.writtenSize == s.writtenSize && b.count == b.saved
  }

  /** On the way to the next level. */
  ghost predicate UnderWay(t: Transfer, n: Node, c: Status, b: Books)
    requires 0 < |t.image| && |c.bitmap| == BITMAP_SIZE
  {
    && b.level < b.next && n.nextPercentage == b.next * n.interval
    && (b.next - 1) * n.interval <= Percent(t, c.writtenSize) < n.nextPercentage
    && b.count + Gap(c) <= b.top + More(n.interval, b.next)
  }

  ghost predicate Levels(t: Transfer, n: Node, c: Status, s: Status, b: Books)
    requires 0 < |t.image| && |c.bitmap| == BITMAP_SIZE && |s.bitmap| == BITMAP_SIZE
  {
    || BeforeFirst(t, n, c, s, b)
    || (Taken(t, n.interval, s, b) && (Restarted(n, c, s, b) || UnderWay(t, n, c, b)))
  }

  ghost predicate Fits(t: Transfer, n: Node) {
    WellFormed(n) && !n.isRoot && 1 <= n.interval < 100 && |t.image| <= |n.update| && |t.image| <= |n.running|
  }

  ghost predicate Loading(t: Transfer, n: Node, b: Books) {
    && Small(t) && Fits(t, n) && !n.bootsUpdate && n.saved.Some?
    && Booked(t, n, Load(n), Restore(n.saved.value), b)
  }

  /** The books agree with the status in RAM, with the one that a restart restores, and with flash. */
  ghost predicate Booked(t: Transfer, n: Node, c: Status, s: Status, b: Books)
    requires Small(t)
  {
    && InTransfer(t, c) && InTransfer(t, s)
    && c.writtenSize != |t.image| && s.writtenSize != |t.image|
    && Counts(t, c, b.count) && Counts(t, s, b.saved) && b.saved <= b.count
    && !GetBit(s.bitmap, LOST) && Includes(s.bitmap, c.bitmap, LOST)
    && OnFlash(t, c, n.update, b.count)
    && Levels(t, n, c, s, b)
  }

  // ---------- what one packet changes ----------

  /** A packet that was not held has been accepted. */
  ghost predicate OneMore(t: Transfer, c: Status, count: nat, c': Status, count': nat)
    requires |c.bitmap| == BITMAP_SIZE && |c'.bitmap| == BITMAP_SIZE
  {
    && Counts(t, c, count) && Counts(t, c', count')
    && c.writtenSize < c'.writtenSize <= c.writtenSize + PACKET_SIZE
    && if count' == count then
         Number(c'.bitmap, LOST) == Number(c.bitmap, LOST) + 1 && Gap(c') == Gap(c)
       else
         count' == count + 1 && Number(c'.bitmap, LOST) == Number(c.bitmap, LOST) && Gap(c) == 1 && Gap(c') == 0
  }

  lemma MoreGrows(interval: nat, a: nat, b: nat)
    requires 1 <= a <= b && 1 <= interval
    ensures More(interval, a) <= More(interval, b)
    ensures interval != 1 || 2 <= a ==> More(interval, a) + 1 == More(interval, a + 1)
  {
  }

  lemma PercentMeaning(t: Transfer, written: nat)
    requires 0 < |t.image|
    ensures Percent(t, written) * |t.image| <= written * 100 < (Percent(t, written) + 1) * |t.image|
  {
    QuotientMeaning(written * 100, |t.image|);
    assert (Percent(t, written) + 1) * |t.image| == Percent(t, written) * |t.image| + |t.image|;
  }

  lemma PercentGrows(t: Transfer, a: nat, b: nat)
    requires Small(t) && a <= b <= a + PACKET_SIZE
    ensures Percent(t, a) <= Percent(t, b) <= Percent(t, a) + 1
  {
    PercentageStep(a, b - a, |t.image|);
    PercentMeaning(t, a);
    QuotientAbove(b * 100, |t.image|, Percent(t, a));
  }

  /** The snapshot just taken restores to what was held. */
  lemma RestoredNumber(c: Status)
    requires |c.bitmap| == BITMAP_SIZE
    ensures var s := Restore(Save(c));
            && Number(s.bitmap, LOST) == Number(c.bitmap, LOST) && !GetBit(s.bitmap, LOST)
            && Includes(s.bitmap, c.bitmap, LOST)
  {
    var s := Restore(Save(c));
    forall k: nat | k < LOST ensures GetBit(s.bitmap, k) <==> GetBit(c.bitmap, k) {
      RestoredBits(c, k);
    }
    RestoredBits(c, LOST);
    NumberMonotone(s.bitmap, c.bitmap, LOST);
    NumberMonotone(c.bitmap, s.bitmap, LOST);
  }

  // ---------- the levels after one packet ----------

  /** The first snapshot at the first level. */
  lemma FirstWindow(t: Transfer, interval: nat, number: nat, count: nat) returns (first: nat)
    requires Small(t) && 1 <= interval && count <= 1
    requires Percent(t, Sum(t, number, count)) == interval
    ensures first <= number && Window(t, interval, first, 1)
  {
    SmallFacts(t);
    PercentMeaning(t, Sum(t, number, count));
    SumMore(t, number, 0);
    first := number;
    if Sum(t, number, 1) * 100 >= (interval + 1) * |t.image| {
      assert count == 0;
      first := number - 1;
      assert Sum(t, first, 1) == Sum(t, number, 0) - PACKET_SIZE + t.Size(LOST);
      assert (interval + 1) * |t.image| == interval * |t.image| + |t.image|;
    }
  }

  /** Another snapshot at the first level, after a restart. */
  lemma NextWindow(t: Transfer, interval: nat, number: nat, first: nat, top: nat, count: nat) returns (first': nat, top': nat)
    requires Small(t) && 1 <= interval && Window(t, interval, first, top) && first <= number && count <= top + 1
    requires Sum(t, number, count) * 100 < (interval + 1) * |t.image|
    ensures first' <= number && Window(t, interval, first', top') && count <= top'
  {
    first', top' := first, top;
    if count == top + 1 {
      first', top' := number, count;
      SumMonotone(t, first, 1, number, 1);
    }
  }

  /** What `Booked` says about the snapshot. */
  ghost predicate SavedOk(t: Transfer, c: Status, s: Status, b: Books)
    requires |c.bitmap| == BITMAP_SIZE && |s.bitmap| == BITMAP_SIZE
  {
    && InTransfer(t, s) && Counts(t, s, b.saved) && b.saved <= b.count
    && !GetBit(s.bitmap, LOST) && Includes(s.bitmap, c.bitmap, LOST)
  }

  ghost predicate LevelsKept(t: Transfer, m: Node, c: Status, b: Books)
    requires 0 < |t.image| && |c.bitmap| == BITMAP_SIZE
  {
    m.saved.Some? && |m.saved.value.bitmap| == SAVED_BITMAP_SIZE
    && SavedOk(t, c, Restore(m.saved.value), b) && Levels(t, m, c, Restore(m.saved.value), b)
  }

  /** A packet is accepted that does not reach the next level. */
  lemma NoSnapshot(t: Transfer, n: Node, c: Status, b: Books, c': Status, count': nat) returns (b': Books)
    requires Small(t) && Fits(t, n) && InTransfer(t, c) && InTransfer(t, c') && LevelsKept(t, n, c, b)
    requires OneMore(t, c, b.count, c', count') && Includes(c.bitmap, c'.bitmap, LOST)
    requires Percent(t, c'.writtenSize) < n.nextPercentage
    requires BeforeFirst(t, n, c, Restore(n.saved.value), b)
             || (Taken(t, n.interval, Restore(n.saved.value), b) && UnderWay(t, n, c, b))
    ensures b'.count == count' && Snapshot(n, c') == n && LevelsKept(t, n, c', b')
  {
    PercentGrows(t, c.writtenSize, c'.writtenSize);
    b' := b.(count := count');
  }

  /** A snapshot is taken at `level`. */
  lemma TakenNow(t: Transfer, n: Node, c: Status, count: nat, level: nat, first: nat, top: nat) returns (b: Books)
    requires Small(t) && Fits(t, n) && InTransfer(t, c) && Counts(t, c, count)
    requires 1 <= level && Percent(t, c.writtenSize) == n.nextPercentage == level * n.interval
    requires Window(t, n.interval, first, top) && first <= Number(c.bitmap, LOST)
    requires count <= top + More(n.interval, level) && count + Gap(c) <= top + More(n.interval, level + 1)
    ensures b.count == count && LevelsKept(t, Snapshot(n, c), c, b)
  {
    RestoredNumber(c);
    b := Books(count, count, level, level + 1, first, top);
    assert (level + 1) * n.interval == level * n.interval + n.interval;
  }

  /** The first snapshot at the first level. */
  lemma AtFirstLevel(t: Transfer, n: Node, c: Status, b: Books, c': Status, count': nat) returns (b': Books)
    requires Small(t) && Fits(t, n) && InTransfer(t, c) && InTransfer(t, c') && LevelsKept(t, n, c, b)
    requires OneMore(t, c, b.count, c', count') && BeforeFirst(t, n, c, Restore(n.saved.value), b)
    requires Percent(t, c'.writtenSize) == n.nextPercentage
    ensures b'.count == count' && LevelsKept(t, Snapshot(n, c'), c', b')
  {
    var first := FirstWindow(t, n.interval, Number(c'.bitmap, LOST), count');
    b' := TakenNow(t, n, c', count', 1, first, 1);
  }

  /** Another one after a restart. */
  lemma AtFirstLevelAgain(t: Transfer, n: Node, c: Status, b: Books, c': Status, count': nat) returns (b': Books)
    requires Small(t) && Fits(t, n) && InTransfer(t, c) && InTransfer(t, c') && LevelsKept(t, n, c, b)
    requires OneMore(t, c, b.count, c', count') && Taken(t, n.interval, Restore(n.saved.value), b)
    requires Restarted(n, c, Restore(n.saved.value), b) && Percent(t, c'.writtenSize) == n.nextPercentage
    ensures b'.count == count' && LevelsKept(t, Snapshot(n, c'), c', b')
  {
    var number := Number(c.bitmap, LOST);
    SmallFacts(t);
    FirstLevel(t, n.interval, c.writtenSize, c'.writtenSize, b.level);
    PercentMeaning(t, c'.writtenSize);
    SumMore(t, number, b.saved);
    var first, top := NextWindow(t, n.interval, number, b.first, b.top, b.saved + 1);
    b' := TakenNow(t, n, c', count', 1, first, top);
  }

  lemma FirstLevel(t: Transfer, interval: nat, a: nat, b: nat, level: nat)
    requires Small(t) && a <= b <= a + PACKET_SIZE && 1 <= level && 1 <= interval
    requires Percent(t, a) == level * interval && Percent(t, b) == interval
    ensures level == 1
  {
    PercentGrows(t, a, b);
    if 2 <= level {
      MulMonotone(2, level, interval);
    }
  }

  /** After a restart above the first level, or off it, the next level is above. */
  lemma SkipsAhead(t: Transfer, n: Node, c: Status, b: Books, c': Status, count': nat) returns (b': Books)
    requires Small(t) && Fits(t, n) && InTransfer(t, c) && InTransfer(t, c') && LevelsKept(t, n, c, b)
    requires OneMore(t, c, b.count, c', count') && Includes(c.bitmap, c'.bitmap, LOST)
    requires Taken(t, n.interval, Restore(n.saved.value), b) && Restarted(n, c, Restore(n.saved.value), b)
    requires Percent(t, c'.writtenSize) > n.nextPercentage
    ensures b'.count == count' && LevelsKept(t, Snapshot(n, c'), c', b')
  {
    PercentGrows(t, c.writtenSize, c'.writtenSize);
    var next := NextMultiple(Percent(t, c'.writtenSize), n.interval, b.level);
    b' := b.(count := count', next := next);
  }

  lemma NextMultiple(percentage: nat, interval: nat, level: nat) returns (next: nat)
    requires 1 <= interval < percentage && 1 <= level && level * interval <= percentage
    ensures next * interval == (percentage / interval + 1) * interval && level < next
    ensures (next - 1) * interval <= percentage < next * interval
    ensures More(interval, level) + 1 <= More(interval, next)
  {
    next := percentage / interval + 1;
    QuotientMeaning(percentage, interval);
    QuotientAbove(percentage, interval, level);
    assert next * interval == (next - 1) * interval + interval;
    MoreGrows(interval, level + 1, next);
    if interval == 1 {
      assert percentage / 1 == percentage;
    }
  }

  /** The next level is reached. */
  lemma AtNextLevel(t: Transfer, n: Node, c: Status, b: Books, c': Status, count': nat) returns (b': Books)
    requires Small(t) && Fits(t, n) && InTransfer(t, c) && InTransfer(t, c') && LevelsKept(t, n, c, b)
    requires OneMore(t, c, b.count, c', count')
    requires Taken(t, n.interval, Restore(n.saved.value), b) && UnderWay(t, n, c, b)
    requires Percent(t, c'.writtenSize) == n.nextPercentage
    ensures b'.count == count' && LevelsKept(t, Snapshot(n, c'), c', b')
  {
    NumberMonotone(Restore(n.saved.value).bitmap, c.bitmap, LOST);
    MoreGrows(n.interval, b.next, b.next + 1);
    b' := TakenNow(t, n, c', count', b.next, b.first, b.top);
  }

  /** Whatever happens to the snapshot. */
  lemma LevelsAfter(t: Transfer, n: Node, c: Status, b: Books, c': Status, count': nat) returns (b': Books)
    requires Small(t) && Fits(t, n) && InTransfer(t, c) && InTransfer(t, c') && LevelsKept(t, n, c, b)
    requires OneMore(t, c, b.count, c', count') && Includes(c.bitmap, c'.bitmap, LOST)
    ensures b'.count == count' && LevelsKept(t, Snapshot(n, c'), c', b')
  {
    var s := Restore(n.saved.value);
    PercentGrows(t, c.writtenSize, c'.writtenSize);
    if BeforeFirst(t, n, c, s, b) {
      if Percent(t, c'.writtenSize) == n.nextPercentage {
        b' := AtFirstLevel(t, n, c, b, c', count');
      } else {
        b' := NoSnapshot(t, n, c, b, c', count');
      }
    } else if Restarted(n, c, s, b) {
      if Percent(t, c'.writtenSize) == n.nextPercentage {
        b' := AtFirstLevelAgain(t, n, c, b, c', count');
      } else {
        MulMonotone(1, b.level, n.interval);
        b' := SkipsAhead(t, n, c, b, c', count');
      }
    } else if Percent(t, c'.writtenSize) == n.nextPercentage {
      b' := AtNextLevel(t, n, c, b, c', count');
    } else {
      b' := NoSnapshot(t, n, c, b, c', count');
    }
  }

  // ---------- a complete count ----------

  lemma LevelsLeft(interval: nat, level: nat)
    requires 1 <= interval < 100 && 1 <= level && level * interval <= 99
    ensures More(interval, level) + 1 <= LaterLevels(interval)
    ensures More(interval, level + 1) <= LaterLevels(interval)
  {
    QuotientAbove(99, interval, level);
  }

  lemma UnfinishedPercent(t: Transfer, written: nat)
    requires Small(t) && written < |t.image|
    ensures Percent(t, written) <= 99
  {
    QuotientBelow(written * 100, |t.image|, 99);
  }

  /** How often packet 3968 can have been counted when the count is complete. */
  lemma CountBound(t: Transfer, n: Node, c: Status, b: Books, c': Status, count': nat)
    requires Small(t) && Fits(t, n) && InTransfer(t, c) && InTransfer(t, c') && LevelsKept(t, n, c, b)
    requires OneMore(t, c, b.count, c', count') && c.writtenSize < |t.image| && 2 <= count'
    ensures Taken(t, n.interval, Restore(n.saved.value), b)
    ensures count' <= b.top + LaterLevels(n.interval)
  {
    UnfinishedPercent(t, c.writtenSize);
    if Restarted(n, c, Restore(n.saved.value), b) {
      LevelsLeft(n.interval, b.level);
    } else {
      LevelsLeft(n.interval, b.next - 1);
    }
  }

  /** If the count cannot be made up, it is complete only when everything has been received. */
  lemma CompleteCount(t: Transfer, n: Node, c: Status, b: Books, c': Status, count': nat)
    requires Small(t) && Fits(t, n) && InTransfer(t, c) && InTransfer(t, c') && LevelsKept(t, n, c, b)
    requires OneMore(t, c, b.count, c', count') && c'.writtenSize == |t.image| && !CanDrift(|t.image|, n.interval)
    ensures count' == 1 && forall k: nat | k < LOST :: GetBit(c'.bitmap, k)
  {
    var number := Number(c'.bitmap, LOST);
    NumberFull(c'.bitmap, LOST);
    if 2 <= count' {
      CountBound(t, n, c, b, c', count');
      NumberMonotone(Restore(n.saved.value).bitmap, c.bitmap, LOST);
      MadeUp(t, n.interval, b.first, b.top, number, count');
      assert false;
    }
    CountedOnce(t, number, count');
  }

  lemma CountedOnce(t: Transfer, number: nat, count: nat)
    requires Small(t) && number <= LOST && count <= 1 && Sum(t, number, count) == |t.image|
    ensures number == LOST && count == 1
  {
    SmallFacts(t);
    SumMore(t, number, 0);
  }

  lemma MadeUp(t: Transfer, interval: nat, first: nat, top: nat, number: nat, count: nat)
    requires Small(t) && 1 <= interval < 100 && Window(t, interval, first, top)
    requires first <= number <= LOST && 2 <= count <= top + LaterLevels(interval)
    requires Sum(t, number, count) == |t.image|
    ensures CanDrift(|t.image|, interval)
  {
    SmallFacts(t);
    var w, m := LOST - number, count - 1;
    var again := AtFirst(interval, m);
    SumMore(t, number, m);
    MulMonotone(1, m, t.Size(LOST));
    SumMore(t, first, again);
    SumMonotone(t, first, again + 1, first, top);
    assert MakesUp(|t.image|, interval, first, w, m);
  }

  // ---------- one device ----------

  ghost predicate Idle(n: Node) {
    n.config.None? && n.saved.None? && !n.bootsUpdate && n.nextPercentage == n.interval
  }

  ghost predicate Halted(t: Transfer, n: Node) {
    && n.config.Some? && n.config.value.errorCode == MDF_ERR_MUPGRADE_STOP && n.config.value.writtenSize == 0
    && n.config.value.name == t.name && n.config.value.totalSize == |t.image|
    && n.saved.None? && !n.bootsUpdate
  }

  /** Complete by count, and indeed; packet 3968 may be written and counted once more. */
  ghost predicate Done(t: Transfer, n: Node) {
    && Small(t) && n.config.Some? && InTransfer(t, n.config.value) && n.saved.None?
    && n.bootsUpdate && n.finished && Installed(t, n.update) && 100 < n.nextPercentage
    && (forall k: nat | k < LOST :: GetBit(n.config.value.bitmap, k))
    && var written := n.config.value.writtenSize;
       written == |t.image| || (written == |t.image| + t.Size(LOST) && GetBit(n.config.value.bitmap, LOST))
  }

  ghost predicate Safe(t: Transfer, n: Node)
    requires Small(t)
  {
    if n.isRoot then UpgradeInvariant.Inv(t, n)
    else Fits(t, n) && (Idle(n) || Halted(t, n) || Done(t, n) || exists b :: Loading(t, n, b))
  }

  /** What is selected for booting, and what is reported as complete, is the image. */
  ghost predicate Honest(t: Transfer, n: Node, reports: seq<Report>) {
    && (n.bootsUpdate ==> Installed(t, n.update))
    && forall r | r in reports :: r.writtenSize == r.totalSize ==> Installed(t, n.update)
  }

  lemma SafeBoots(t: Transfer, n: Node)
    requires Small(t) && Safe(t, n)
    ensures WellFormed(n) && (n.bootsUpdate ==> Installed(t, n.update))
  {
  }

  // ---------- requests ----------

  lemma RequestStarts(t: Transfer, n: Node)
    requires Small(t) && Fits(t, n) && Idle(n)
    ensures var (n', report) := HandleStatus(n, RootRequest(t));
            Loading(t, n', Books(0, 0, 0, 0, 0, 0)) && Honest(t, n', [report])
  {
    var n' := HandleStatus(n, RootRequest(t)).0;
    var c := n'.config.value;
    assert c == Status(t.name, MDF_OK, |t.image|, 0, Zeros(BITMAP_SIZE)) && n'.update == Erase(n.update);
    assert n'.saved == Some(Save(c.(errorCode := MDF_ERR_MUPGRADE_FIRMWARE_FINISH)));
    NothingBooked(t, n', c, Restore(n'.saved.value));
  }

  lemma NothingBooked(t: Transfer, n: Node, c: Status, s: Status)
    requires Small(t) && Fits(t, n) && n.nextPercentage == n.interval && Programmable(t, n.update)
    requires c == Status(t.name, MDF_OK, |t.image|, 0, Zeros(BITMAP_SIZE))
    requires s == Restore(Save(c.(errorCode := MDF_ERR_MUPGRADE_FIRMWARE_FINISH)))
    ensures Booked(t, n, c, s, Books(0, 0, 0, 0, 0, 0))
  {
    NumberZeros(BITMAP_SIZE, LOST);
    MembersZeros(BITMAP_SIZE);
    assert LOST !in Members(c.bitmap);
    RestoredNumber(c);
    forall k: nat | k < LOST ensures !GetBit(c.bitmap, k) {
      assert k !in Members(c.bitmap);
    }
  }

  lemma RequestLoading(t: Transfer, n: Node, b: Books)
    requires Loading(t, n, b)
    ensures var (n', report) := HandleStatus(n, RootRequest(t)); Loading(t, n', b) && Honest(t, n', [report])
  {
  }

  lemma RequestSafe(t: Transfer, n: Node)
    requires Small(t) && Safe(t, n)
    ensures var (n', report) := HandleStatus(n, RootRequest(t)); Safe(t, n') && Honest(t, n', [report])
  {
    if n.isRoot {
      StatusKeepsInv(t, n, RootRequest(t));
    } else if Idle(n) {
      RequestStarts(t, n);
    } else if !Halted(t, n) && !Done(t, n) {
      var b :| Loading(t, n, b);
      RequestLoading(t, n, b);
    }
  }

  // ---------- packets ----------

  /** A new packet in the books. */
  lemma PacketCounts(t: Transfer, c: Status, count: nat, k: nat) returns (count': nat)
    requires Small(t) && InTransfer(t, c) && Counts(t, c, count) && k < t.PacketNum() && !GetBit(c.bitmap, k)
    ensures var c' := c.(bitmap := WithBit(c.bitmap, k), writtenSize := c.writtenSize + t.Size(k));
            && InTransfer(t, c') && OneMore(t, c, count, c', count') && Includes(c.bitmap, c'.bitmap, LOST)
    ensures count' == count + if k == LOST then 1 else 0
  {
    SmallFacts(t);
    count' := count + if k == LOST then 1 else 0;
    NumberWithBit(c.bitmap, k, LOST);
    SumMore(t, Number(c.bitmap, LOST), count);
    GetWithBit(c.bitmap, k, LOST);
    forall j: nat | j < LOST && GetBit(c.bitmap, j) ensures GetBit(WithBit(c.bitmap, k), j) {
      GetWithBit(c.bitmap, k, j);
    }
  }

  lemma PacketOnFlash(t: Transfer, c: Status, flash: seq<Byte>, count: nat, k: nat)
    requires Small(t) && InTransfer(t, c) && OnFlash(t, c, flash, count) && k < t.PacketNum() && !GetBit(c.bitmap, k)
    requires k * PACKET_SIZE + t.Size(k) <= |flash|
    ensures var c' := c.(bitmap := WithBit(c.bitmap, k), writtenSize := c.writtenSize + t.Size(k));
            OnFlash(t, c', Program(flash, k * PACKET_SIZE, t.PacketAt(k).data), count + if k == LOST then 1 else 0)
  {
    ProgramPacket(t, flash, k);
    forall j: nat | j < LOST && GetBit(WithBit(c.bitmap, k), j)
      ensures SliceOk(t, Program(flash, k * PACKET_SIZE, t.PacketAt(k).data), j)
    {
      GetWithBit(c.bitmap, k, j);
    }
  }

  lemma SnapshotMoves(n: Node, c: Status)
    requires |c.bitmap| == BITMAP_SIZE && 0 < c.totalSize && 1 <= n.interval
    ensures var m := Snapshot(n, c);
            && m == n.(saved := m.saved, nextPercentage := m.nextPercentage)
            && c.writtenSize * 100 / c.totalSize < m.nextPercentage
  {
    var percentage := c.writtenSize * 100 / c.totalSize;
    QuotientMeaning(percentage, n.interval);
    assert (percentage / n.interval + 1) * n.interval == percentage / n.interval * n.interval + n.interval;
  }

  /** The count is complete with this packet. */
  lemma FinishSafe(t: Transfer, n: Node, c: Status, m: Node, bootOk: bool)
    requires Small(t) && Fits(t, n) && !n.bootsUpdate && n.config == Some(c) && InTransfer(t, c)
    requires OnFlash(t, c, n.update, 1) && c.writtenSize == |t.image| && m == Snapshot(n, c)
    requires forall k: nat | k < LOST :: GetBit(c.bitmap, k)
    ensures var (n', reports, _) := Finish(m, c, bootOk); Safe(t, n') && Honest(t, n', reports)
  {
    SmallFacts(t);
    SnapshotMoves(n, c);
    PercentageFull(|t.image|);
    AllSlices(t, n.update);
  }

  lemma AcceptLoading(t: Transfer, n: Node, b: Books, k: nat, bootOk: bool)
    requires Loading(t, n, b) && n.config.Some? && k < t.PacketNum() && !GetBit(n.config.value.bitmap, k)
    requires k * PACKET_SIZE + t.Size(k) <= |n.update| && !CanDrift(|t.image|, n.interval)
    ensures t.PacketAt(k).size <= |t.PacketAt(k).data|
    ensures var (n', reports, _) := Accept(n, n.config.value, t.PacketAt(k), bootOk); Safe(t, n') && Honest(t, n', reports)
  {
    var c := n.config.value;
    var c' := c.(bitmap := WithBit(c.bitmap, k), writtenSize := c.writtenSize + t.Size(k));
    var m := n.(update := Program(n.update, k * PACKET_SIZE, t.PacketAt(k).data), config := Some(c'));
    AcceptSteps(t, n, c, k, bootOk);
    var count' := PacketCounts(t, c, b.count, k);
    PacketOnFlash(t, c, n.update, b.count, k);
    if c'.writtenSize == |t.image| {
      CompleteCount(t, m, c, b, c', count');
      FinishSafe(t, m, c', Snapshot(m, c'), bootOk);
    } else {
      OnwardSafe(t, m, c, b, c', count');
    }
  }

  /** The count is not complete with this packet. */
  lemma OnwardSafe(t: Transfer, m: Node, c: Status, b: Books, c': Status, count': nat)
    requires Small(t) && Fits(t, m) && !m.bootsUpdate && InTransfer(t, c) && InTransfer(t, c')
    requires LevelsKept(t, m, c, b) && OneMore(t, c, b.count, c', count') && Includes(c.bitmap, c'.bitmap, LOST)
    requires m.config == Some(c') && c'.writtenSize != |t.image| && m.saved.value.writtenSize != |t.image|
    requires OnFlash(t, c', m.update, count')
    ensures Safe(t, Snapshot(m, c')) && Honest(t, Snapshot(m, c'), [])
  {
    var b' := LevelsAfter(t, m, c, b, c', count');
    SnapshotMoves(m, c');
    SavedSize(m, c', |t.image|);
    assert Loading(t, Snapshot(m, c'), b');
  }

  lemma SavedSize(n: Node, c: Status, size: nat)
    requires |c.bitmap| == BITMAP_SIZE && 0 < c.totalSize && 1 <= n.interval && n.saved.Some?
    requires c.writtenSize != size && n.saved.value.writtenSize != size
    ensures Snapshot(n, c).saved.Some? && Snapshot(n, c).saved.value.writtenSize != size
  {
  }

  lemma DataLoading(t: Transfer, n: Node, b: Books, k: nat, bootOk: bool)
    requires Loading(t, n, b) && k < t.PacketNum() && !CanDrift(|t.image|, n.interval)
    ensures var (n', reports, _) := HandleData(n, t.PacketAt(k), bootOk); Safe(t, n') && Honest(t, n', reports)
  {
    t.SliceBounds(k);
    var n1 := n.(config := Some(Load(n)));
    assert Loading(t, n1, b);
    if !GetBit(Load(n).bitmap, k) {
      AcceptLoading(t, n1, b, k, bootOk);
    }
  }

  /** After completion only packet 3968 can be missing from the bitmap; the flash has it already. */
  lemma DataDone(t: Transfer, n: Node, k: nat, bootOk: bool)
    requires Small(t) && Fits(t, n) && Done(t, n) && k < t.PacketNum()
    ensures var (n', reports, _) := HandleData(n, t.PacketAt(k), bootOk); Safe(t, n') && Honest(t, n', reports)
  {
    t.SliceBounds(k);
    if !GetBit(n.config.value.bitmap, k) {
      AcceptSteps(t, n, n.config.value, k, bootOk);
      OnceMoreDone(t, n, k);
    }
  }

  lemma OnceMoreDone(t: Transfer, n: Node, k: nat)
    requires Small(t) && Fits(t, n) && Done(t, n) && k < t.PacketNum() && !GetBit(n.config.value.bitmap, k)
    ensures k * PACKET_SIZE + t.Size(k) <= |n.update|
    ensures var c := n.config.value;
            var c' := c.(bitmap := WithBit(c.bitmap, k), writtenSize := c.writtenSize + t.Size(k));
            var m := n.(update := Program(n.update, k * PACKET_SIZE, t.PacketAt(k).data), config := Some(c'));
            c'.writtenSize != c'.totalSize && Snapshot(m, c') == m && Done(t, m)
  {
    SmallFacts(t);
    var c := n.config.value;
    StaysInstalled(t, n.update, k);
    BelowOneMore(t, c.writtenSize + t.Size(k));
    BitsStay(c.bitmap, k);
  }

  lemma BelowOneMore(t: Transfer, written: nat)
    requires Small(t) && |t.image| <= written <= |t.image| + PACKET_SIZE
    ensures Percent(t, written) == 100
  {
    QuotientBelow(written * 100, |t.image|, 100);
    QuotientAbove(written * 100, |t.image|, 100);
  }

  lemma BitsStay(bits: seq<Byte>, k: nat)
    requires k < 8 * |bits|
    ensures GetBit(WithBit(bits, k), k)
    ensures forall j: nat | j < 8 * |bits| && GetBit(bits, j) :: GetBit(WithBit(bits, k), j)
  {
    GetWithBit(bits, k, k);
    forall j: nat | j < 8 * |bits| && GetBit(bits, j) ensures GetBit(WithBit(bits, k), j) {
      GetWithBit(bits, k, j);
    }
  }

  lemma StaysInstalled(t: Transfer, flash: seq<Byte>, k: nat)
    requires t.Valid() && Installed(t, flash) && k < t.PacketNum()
    ensures k * PACKET_SIZE + t.Size(k) <= |flash|
    ensures Installed(t, Program(flash, k * PACKET_SIZE, t.PacketAt(k).data))
  {
    t.SliceBounds(k);
    ImageIsProgrammable(t, flash);
    ProgramPacket(t, flash, k);
    AllSlices(t, flash);
    AllSlices(t, Program(flash, k * PACKET_SIZE, t.PacketAt(k).data));
  }

  lemma ImageIsProgrammable(t: Transfer, flash: seq<Byte>)
    requires Installed(t, flash)
    ensures Programmable(t, flash)
  {
    forall i | 0 <= i < |t.image| ensures flash[i] & t.image[i] == t.image[i] {
      assert flash[i] == flash[..|t.image|][i];
    }
  }

  lemma DataSafe(t: Transfer, n: Node, k: nat, bootOk: bool)
    requires Small(t) && Safe(t, n) && k < t.PacketNum() && !CanDrift(|t.image|, n.interval)
    ensures var (n', reports, _) := HandleData(n, t.PacketAt(k), bootOk); Safe(t, n') && Honest(t, n', reports)
  {
    if n.isRoot {
      DataKeepsInv(t, n, k, bootOk);
    } else if Done(t, n) {
      DataDone(t, n, k, bootOk);
    } else if !Idle(n) && !Halted(t, n) {
      var b :| Loading(t, n, b);
      DataLoading(t, n, b, k, bootOk);
    }
  }

  // ---------- stops, restarts, interrupted writes ----------

  lemma StopSafe(t: Transfer, n: Node)
    requires Small(t) && Safe(t, n)
    ensures var (n', reports) := HandleStop(n); Safe(t, n') && Honest(t, n', reports)
  {
    if n.isRoot {
      StopKeepsInv(t, n);
    } else if n.config.None? && !Idle(n) {
      assert HandleStop(n) == (n, []);
    }
  }

  /** The snapshot is all that is left. */
  lemma RestartLoading(t: Transfer, n: Node, b: Books)
    requires Loading(t, n, b)
    ensures Loading(t, PowerCycle(n), b.(count := b.saved))
  {
    var s := Restore(n.saved.value);
    var b' := b.(count := b.saved);
    assert Load(PowerCycle(n)) == s;
    QuotientBelow(0, |t.image|, 0);
  }

  lemma RestartSafe(t: Transfer, n: Node)
    requires Small(t) && Safe(t, n) && !n.isRoot
    ensures Safe(t, PowerCycle(n)) && Honest(t, PowerCycle(n), [])
  {
    if !Idle(n) && !Halted(t, n) && !Done(t, n) {
      var b :| Loading(t, n, b);
      RestartLoading(t, n, b);
    }
  }

  lemma InterruptDone(t: Transfer, n: Node, k: nat, flash: seq<Byte>)
    requires Small(t) && Fits(t, n) && Done(t, n) && k < t.PacketNum() && Interruptible(t, n, k, flash)
    ensures Done(t, n.(update := flash)) && |flash| == |n.update|
  {
    t.SliceBounds(k);
    ImageIsProgrammable(t, n.update);
    InterruptKeepsFlash(t, n.update, k, flash);
    AllSlices(t, n.update);
    AllSlices(t, flash);
  }

  lemma InterruptLoading(t: Transfer, n: Node, b: Books, k: nat, flash: seq<Byte>)
    requires Loading(t, n, b) && k < t.PacketNum() && Interruptible(t, n, k, flash)
    ensures Loading(t, n.(update := flash, config := Some(Load(n))), b)
  {
    t.SliceBounds(k);
    InterruptKeepsFlash(t, n.update, k, flash);
  }

  lemma InterruptSafe(t: Transfer, n: Node, k: nat, flash: seq<Byte>)
    requires Small(t) && Safe(t, n) && k < t.PacketNum() && Interruptible(t, n, k, flash)
    ensures var n' := n.(update := flash, config := Some(Load(n))); Safe(t, n') && Honest(t, n', [])
  {
    if n.isRoot {
      InterruptKeepsInv(t, n, k, flash);
    } else if Done(t, n) {
      InterruptDone(t, n, k, flash);
      assert n.(update := flash, config := Some(Load(n))) == n.(update := flash);
    } else {
      var b :| Loading(t, n, b);
      InterruptLoading(t, n, b, k, flash);
    }
  }

  // ---------- all that can happen ----------

  lemma ApplySafe(t: Transfer, n: Node, op: Op)
    requires Small(t) && Safe(t, n) && !CanDrift(|t.image|, n.interval)
    ensures var (n', reports) := Apply(t, n, op); Safe(t, n') && Honest(t, n', reports)
  {
    match op
    case Ask => RequestSafe(t, n);
    case Data(k, bootOk) => if k < t.PacketNum() { DataSafe(t, n, k, bootOk); }
    case Stop => StopSafe(t, n);
    case Reboot => if !n.isRoot { RestartSafe(t, n); }
    case Interrupt(k, flash) => if k < t.PacketNum() && Interruptible(t, n, k, flash) { InterruptSafe(t, n, k, flash); }
  }

  lemma {:induction false} RunSafe(t: Transfer, n: Node, ops: seq<Op>)
    requires Small(t) && Safe(t, n) && !CanDrift(|t.image|, n.interval)
    ensures Safe(t, Run(t, n, ops))
    decreases |ops|
  {
    if ops != [] {
      ApplySafe(t, n, ops[0]);
      RunSafe(t, Apply(t, n, ops[0]).0, ops[1..]);
    }
  }

  lemma InitialSafe(t: Transfer, n: Node)
    requires Small(t) && Initial(t, n) && n.interval < 100
    ensures Safe(t, n)
  {
    if n.isRoot {
      InitialInv(t, n);
    }
  }

  // ---------- what the condition means ----------

  /** Up to 37 missing packets can be made up at the first level, whatever the interval. */
  lemma FewMissing(size: nat, interval: nat, w: nat, m: nat) returns (a: nat)
    requires LOST * PACKET_SIZE < size && 1 <= interval < 100
    requires 0 < w <= 37 && 0 < m && m * LostSize(size) == w * PACKET_SIZE
    ensures MakesUp(size, interval, a, w, m)
  {
    var p := LostSize(size);
    var again := AtFirst(interval, m);
    var x := interval * size + 102399 - 100 * p;
    MulMonotone(1, interval, size);
    MulMonotone(interval, 99, size);
    MulMonotone(again, m, p);
    a := x / 102400;
    QuotientMeaning(x, 102400);
    assert (interval + 1) * size == interval * size + size;
  }

  /** Where packet 3968 is a full one, a single recount makes up for one missing packet. */
  lemma FullDrifts(size: nat, interval: nat) returns (a: nat)
    requires (LOST + 1) * PACKET_SIZE <= size && 1 <= interval < 100
    ensures MakesUp(size, interval, a, 1, 1)
  {
    a := FewMissing(size, interval, 1, 1);
  }

  /** An odd number of bytes would have to be counted too often a multiple of 1024 times. */
  lemma OddSizesAreSafe(size: nat, interval: nat)
    requires LOST * PACKET_SIZE + 45 <= size < (LOST + 1) * PACKET_SIZE && size % 2 == 1 && 1 <= interval
    ensures !CanDrift(size, interval)
  {
    if CanDrift(size, interval) {
      var a, w, m :| MakesUp(size, interval, a, w, m);
      AtLeast1024(size, interval, a, w, m);
      TooOften(size, interval, a, w, m);
    }
  }

  lemma AtLeast1024(size: nat, interval: nat, a: nat, w: nat, m: nat)
    requires LOST * PACKET_SIZE < size < (LOST + 1) * PACKET_SIZE && size % 2 == 1 && MakesUp(size, interval, a, w, m)
    ensures 1024 <= m
  {
    PowersOfTwo();
    var half := OddPart(size);
    OddFactor(half, m, w, 10);
  }

  lemma OddPart(size: nat) returns (half: nat)
    requires LOST * PACKET_SIZE < size < (LOST + 1) * PACKET_SIZE && size % 2 == 1
    ensures LostSize(size) == 2 * half + 1
  {
    half := (size - LOST * PACKET_SIZE) / 2;
  }

  /** There is not enough room for so many recounts. */
  lemma TooOften(size: nat, interval: nat, a: nat, w: nat, m: nat)
    requires LOST * PACKET_SIZE + 45 <= size < (LOST + 1) * PACKET_SIZE && 1 <= interval < 100 && 1024 <= m
    ensures !MakesUp(size, interval, a, w, m)
  {
    LaterLevelsAre(interval);
    MulMonotone(926, m - LaterLevels(interval), LostSize(size));
    OnceMore(interval, size);
  }

  lemma OnceMore(c: nat, size: nat)
    ensures (c + 1) * size == c * size + size
  {
  }

  function TwoTo(e: nat): nat {
    if e == 0 then 1 else 2 * TwoTo(e - 1)
  }

  lemma PowersOfTwo()
    ensures TwoTo(10) == 1024
  {
    assert TwoTo(5) == 32;
  }

  lemma TwiceAndOnce(m: nat, half: nat)
    ensures m * (2 * half + 1) == 2 * (m * half) + m
  {
  }

  lemma Twice(x: nat, y: nat)
    ensures (2 * x) * y == 2 * (x * y) == x * (2 * y)
  {
  }

  lemma Halve(m: nat, half: nat, y: nat) returns (x: nat)
    requires m * (2 * half + 1) == 2 * y
    ensures m == 2 * x && x * (2 * half + 1) == y
  {
    TwiceAndOnce(m, half);
    x := y - m * half;
    Twice(x, half);
    TwiceAndOnce(x, half);
  }

  /** If an odd number times m is a multiple of a power of two, m is at least that power. */
  lemma {:induction false} OddFactor(half: nat, m: nat, w: nat, e: nat)
    requires m * (2 * half + 1) == w * TwoTo(e) && 0 < m
    ensures TwoTo(e) <= m
    decreases e
  {
    if e > 0 {
      Twice(w, TwoTo(e - 1));
      var x := Halve(m, half, w * TwoTo(e - 1));
      OddFactor(half, x, w, e - 1);
    }
  }

  lemma LaterLevelsAre(interval: nat)
    requires 1 <= interval < 100
    ensures 1 <= LaterLevels(interval) <= 98
    ensures 50 <= interval ==> LaterLevels(interval) == 1
    ensures 2 <= interval ==> LaterLevels(interval) * interval <= 99
  {
    QuotientAbove(99, interval, 1);
    QuotientMeaning(99, interval);
    if 2 <= interval {
      QuotientBelow(99, interval, 49);
    }
    if 50 <= interval {
      QuotientBelow(99, interval, 1);
    }
  }

  /** So only the other sizes are left to look at. */
  lemma SmallOrDrifts(t: Transfer, interval: nat)
    requires t.Valid() && 1 <= interval && !Resumable(t, interval) && !CanDrift(|t.image|, interval)
    ensures Small(t) && interval < 100
  {
    if (LOST + 1) * PACKET_SIZE <= |t.image| {
      var a := FullDrifts(|t.image|, interval);
      assert false;
    }
  }
}
