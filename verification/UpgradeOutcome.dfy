/** How an upgrade ends for one device: when it reports completion, what a stop means from then
    on, whom the packets are addressed to, and how a status request notices the end. */
module UpgradeOutcome {
  import opened Prelude
  import opened Bitmap
  import opened Addresses
  import opened UpgradeNode
  import opened UpgradeInvariant
  import opened UpgradeRuns
  import opened UpgradeRoot
  import opened UpgradeAccounting
  import opened UpgradeCoverage

  // ---------- completion of a device ----------

  /** mupgrade_write reports, and selects the new partition for booting, exactly with the packet
      that was the last one missing; the snapshot is then gone. */
  lemma CompletionReported(t: Transfer, n: Node, k: nat)
    requires t.Valid() && UpgradeInvariant.Inv(t, n) && Downloading(t, n) && k < t.PacketNum()
    ensures var (n', reports, ret) := HandleData(n, t.PacketAt(k), true);
            && ret == MDF_OK && |reports| <= 1
            && (reports != [] <==> !Has(n, k) && forall j: nat | j < t.PacketNum() && j != k :: Has(n, j))
            && (reports != [] ==>
                  && Complete(t, n') && n'.bootsUpdate && n'.saved.None?
                  && reports[0].writtenSize == reports[0].totalSize == |t.image|)
            && (reports == [] ==> n'.bootsUpdate == n.bootsUpdate)
  {
    SteadyKeepsPackets(t, n, Data(k, true));
    ApplyKeepsInv(t, n, Data(k, true));
    var n' := Apply(t, n, Data(k, true)).0;
    CompleteIffHasAll(t, n');
    if !Has(n, k) {
      t.SliceBounds(k);
      NewPacketReported(t, n, k);
      CompleteIffAllBits(t, n'.config.value.bitmap);
    }
  }

  lemma NewPacketReported(t: Transfer, n: Node, k: nat)
    requires t.Valid() && UpgradeInvariant.Inv(t, n) && Downloading(t, n) && k < t.PacketNum() && !Has(n, k)
    requires k * PACKET_SIZE + t.Size(k) <= |n.update|
    ensures var (n', reports, ret) := HandleData(n, t.PacketAt(k), true);
            && ret == MDF_OK && n'.config.Some?
            && (if n'.config.value.writtenSize == |t.image| then
                  reports == [StopReport(n'.config.value)] && n'.bootsUpdate && n'.saved.None?
                else
                  reports == [] && n'.bootsUpdate == n.bootsUpdate)
  {
    AcceptSteps(t, n, n.config.value, k, true);
  }

  /** If the boot partition cannot be set, the packet that was the last one missing ends the upgrade
      instead: an error is returned, nothing is sent, nothing is selected and nothing resumes. Every
      other packet is handled as if it could be set. */
  lemma CompletionRefused(t: Transfer, n: Node, k: nat)
    requires t.Valid() && UpgradeInvariant.Inv(t, n) && Downloading(t, n) && k < t.PacketNum()
    ensures var (n', reports, ret) := HandleData(n, t.PacketAt(k), false);
            if !Has(n, k) && forall j: nat | j < t.PacketNum() && j != k :: Has(n, j) then
              && reports == [] && ret == MDF_FAIL
              && n'.bootsUpdate == n.bootsUpdate && n'.finished == n.finished && n'.saved.None?
              && n'.config.Some? && n'.config.value.errorCode == MDF_ERR_MUPGRADE_STOP && n'.config.value.writtenSize == 0
            else
              (n', reports, ret) == HandleData(n, t.PacketAt(k), true)
  {
    t.SliceBounds(k);
    SteadyKeepsPackets(t, n, Data(k, true));
    CompletionReported(t, n, k);
    if !Has(n, k) {
      NewPacketReported(t, n, k);
      NewPacketRefused(t, n, k);
    }
  }

  lemma NewPacketRefused(t: Transfer, n: Node, k: nat)
    requires t.Valid() && UpgradeInvariant.Inv(t, n) && Downloading(t, n) && k < t.PacketNum() && !Has(n, k)
    requires k * PACKET_SIZE + t.Size(k) <= |n.update|
    ensures var (n', reports, ret) := HandleData(n, t.PacketAt(k), false);
            if n.config.value.writtenSize + t.Size(k) == |t.image| then
              && reports == [] && ret == MDF_FAIL
              && n'.bootsUpdate == n.bootsUpdate && n'.finished == n.finished && n'.saved.None?
              && n'.config.Some? && n'.config.value.errorCode == MDF_ERR_MUPGRADE_STOP && n'.config.value.writtenSize == 0
            else
              (n', reports, ret) == HandleData(n, t.PacketAt(k), true)
  {
    AcceptSteps(t, n, n.config.value, k, true);
    AcceptSteps(t, n, n.config.value, k, false);
  }

  // ---------- every packet whatever ----------

  /** What mupgrade_write does with any packet, of this transfer or not: each return value has its
      exact cause. Unless the packet is accepted or the device has stopped, nothing is sent and
      nothing changes but that a snapshot is loaded. */
  lemma PacketFate(n: Node, p: Packet, bootOk: bool)
    requires WellFormed(n) && p.size <= |p.data|
    requires p.seqNo < PACKET_NUM || Load(n).totalSize < p.seqNo * PACKET_SIZE
    ensures var (n', reports, ret) := HandleData(n, p, bootOk);
            var c := Load(n);
            var known := n.config.Some? || n.saved.Some?;
            var stopped := known && c.errorCode == MDF_ERR_MUPGRADE_STOP;
            var outside := p.seqNo * PACKET_SIZE > c.totalSize;
            var unseen := known && !stopped && !outside && !GetBit(c.bitmap, p.seqNo);
            && (ret == MDF_ERR_MUPGRADE_NOT_INIT <==> !known)
            && (ret == MDF_ERR_INVALID_ARG <==> known && !stopped && outside)
            && (ret == MDF_ERR_MUPGRADE_FIRMWARE_DOWNLOAD <==> unseen && p.seqNo * PACKET_SIZE + p.size > |n.update|)
            && (ret == MDF_FAIL <==> unseen && p.seqNo * PACKET_SIZE + p.size <= |n.update|
                                     && c.writtenSize + p.size == c.totalSize && !bootOk)
            && (ret in {MDF_OK, MDF_FAIL, MDF_ERR_MUPGRADE_NOT_INIT, MDF_ERR_INVALID_ARG, MDF_ERR_MUPGRADE_FIRMWARE_DOWNLOAD})
            && (!known ==> n' == n && reports == [])
            && (known && !stopped && (!unseen || p.seqNo * PACKET_SIZE + p.size > |n.update|) ==>
                  n' == n.(config := Some(c)) && reports == [])
            && (stopped ==> reports != [] && n'.update == n.update && n'.bootsUpdate == n.bootsUpdate)
  {
  }

  /** A reset leaves nothing of RAM and brings up what is selected. */
  lemma ResetMeaning(n: Node)
    requires WellFormed(n)
    ensures var n' := PowerCycle(n);
            && n'.config.None? && !n'.finished && !n'.bootsUpdate && n'.nextPercentage == n.interval
            && n'.saved == n.saved
            && (if n.bootsUpdate then n'.running == n.update && n'.update == n.running
                else n'.running == n.running && n'.update == n.update)
  {
  }

  // ---------- completion and the boot selection ----------

  /** A status counts as complete only with the new partition selected for booting. */
  ghost predicate CompleteIsSelected(n: Node) {
    && (n.config.Some? ==>
          if n.config.value.errorCode == MDF_ERR_MUPGRADE_STOP then n.config.value.writtenSize == 0
          else n.config.value.writtenSize == n.config.value.totalSize ==> n.bootsUpdate)
    && (n.saved.Some? ==>
          n.saved.value.errorCode != MDF_ERR_MUPGRADE_STOP && n.saved.value.writtenSize != n.saved.value.totalSize)
  }

  /** Restarts of any kind included, a device reports completion only with the new partition
      selected for booting. */
  lemma ReportsSelected(t: Transfer, n: Node, op: Op)
    requires t.Valid() && WellFormed(n) && CompleteIsSelected(n)
    ensures var (n', reports) := Apply(t, n, op);
            && CompleteIsSelected(n')
            && forall r | r in reports :: r.writtenSize == r.totalSize ==> n'.bootsUpdate
  {
    if op.Data? && op.k < t.PacketNum() {
      PacketSelected(t, n, op.k, op.bootOk);
    }
  }

  lemma PacketSelected(t: Transfer, n: Node, k: nat, bootOk: bool)
    requires t.Valid() && WellFormed(n) && CompleteIsSelected(n) && k < t.PacketNum()
    ensures var (n', reports, _) := HandleData(n, t.PacketAt(k), bootOk);
            && CompleteIsSelected(n')
            && forall r | r in reports :: r.writtenSize == r.totalSize ==> n'.bootsUpdate
  {
    var c := Load(n);
    if (n.config.Some? || n.saved.Some?) && c.errorCode != MDF_ERR_MUPGRADE_STOP && k * PACKET_SIZE + t.Size(k) <= |n.update| {
      AcceptSelected(t, n.(config := Some(c)), c, k, bootOk);
    }
  }

  lemma AcceptSelected(t: Transfer, n: Node, c: Status, k: nat, bootOk: bool)
    requires t.Valid() && WellFormed(n) && CompleteIsSelected(n) && k < t.PacketNum()
    requires n.config == Some(c) && c.errorCode != MDF_ERR_MUPGRADE_STOP && k * PACKET_SIZE + t.Size(k) <= |n.update|
    ensures t.PacketAt(k).size <= |t.PacketAt(k).data|
    ensures var (n', reports, _) := Accept(n, c, t.PacketAt(k), bootOk);
            && CompleteIsSelected(n')
            && forall r | r in reports :: r.writtenSize == r.totalSize ==> n'.bootsUpdate
  {
    AcceptSteps(t, n, c, k, bootOk);
  }

  // ---------- when an upgrade starts over ----------

  /** What mupgrade_status answers to any request whatever. A request for another name or another
      size starts over: the partition is erased, nothing is held or counted, and that is what a
      restart finds. A request for the firmware that the device knows, from RAM or from its
      snapshot, changes nothing but the error code and tells how far it is. */
  lemma RequestMeaning(n: Node, req: Request)
    requires WellFormed(n) && 0 < req.totalSize && !n.isRoot
    ensures var (n', report) := HandleStatus(n, req);
            var known := (n.config.Some? || n.saved.Some?) && Load(n).name == req.name && Load(n).totalSize == req.totalSize;
            && n'.config.Some? && n'.config.value.name == req.name && n'.config.value.totalSize == req.totalSize
            && n'.running == n.running && n'.bootsUpdate == n.bootsUpdate && n'.nextPercentage == n.nextPercentage
            && report.totalSize == req.totalSize && report.errorCode == n'.config.value.errorCode
            && if known then
                 && n'.update == n.update && n'.saved == n.saved && n'.finished == n.finished
                 && n'.config.value.bitmap == Load(n).bitmap && n'.config.value.writtenSize == Load(n).writtenSize
                 && n'.config.value.errorCode
                    == (if Load(n).errorCode == MDF_ERR_MUPGRADE_STOP then MDF_ERR_MUPGRADE_STOP else MDF_OK)
                 && report.writtenSize == Load(n).writtenSize
                 && report.bitmap == (if 0 < report.writtenSize != report.totalSize then Load(n).bitmap else [])
               else
                 && FreshStart(n', req) && n'.update == Ones(|n.update|) && !n'.finished
                 && n'.config.value.errorCode
                    == (if req.errorCode == MDF_ERR_MUPGRADE_STOP then MDF_ERR_MUPGRADE_STOP else MDF_OK)
                 && report.writtenSize == 0 && report.bitmap == []
  {
    MembersZeros(BITMAP_SIZE);
    assert Save(Status(req.name, req.errorCode, req.totalSize, 0, Zeros(BITMAP_SIZE))).bitmap
        == Zeros(SAVED_BITMAP_SIZE);
    MembersZeros(SAVED_BITMAP_SIZE);
  }

  /** Nothing is held and nothing counted, in RAM and in the snapshot. */
  ghost predicate FreshStart(n: Node, req: Request) {
    && n.config.Some? && n.config.value.writtenSize == 0 && Members(n.config.value.bitmap) == {}
    && n.saved.Some? && n.saved.value.name == req.name && n.saved.value.totalSize == req.totalSize
    && n.saved.value.errorCode == req.errorCode
    && n.saved.value.writtenSize == 0 && Members(n.saved.value.bitmap) == {}
  }

  /** The root has the image already: whatever it is asked for that it does not know, it counts
      as complete and selects. */
  lemma RootRequestMeaning(n: Node, req: Request)
    requires WellFormed(n) && 0 < req.totalSize && n.isRoot
    ensures var (n', report) := HandleStatus(n, req);
            && n'.update == n.update && n'.running == n.running && n'.saved == n.saved
            && n'.config.Some? && n'.config.value.name == req.name && n'.config.value.totalSize == req.totalSize
            && if (n.config.Some? || n.saved.Some?) && Load(n).name == req.name && Load(n).totalSize == req.totalSize then
                 && n'.bootsUpdate == n.bootsUpdate && n'.finished == n.finished
                 && n'.config.value.bitmap == Load(n).bitmap
                 && report.writtenSize == n'.config.value.writtenSize == Load(n).writtenSize
               else
                 && n'.bootsUpdate && n'.finished && report.writtenSize == report.totalSize == req.totalSize
                 && (forall k: nat | k < PACKET_NUM :: GetBit(n'.config.value.bitmap, k))
  {
    forall k: nat | k < PACKET_NUM ensures GetBit(Ones(BITMAP_SIZE), k) {
      OnesAreSet(BITMAP_SIZE, k);
    }
  }

  /** The root never asks itself for packets: it counts as complete from its first answer on. */
  lemma RootAnswersComplete(t: Transfer, n: Node)
    requires t.Valid() && UpgradeInvariant.Inv(t, n) && n.isRoot
    ensures var report := HandleStatus(n, RootRequest(t)).1;
            report.errorCode == MDF_ERR_MUPGRADE_STOP || report.writtenSize == report.totalSize
  {
  }

  // ---------- stopping ----------

  /** Stopped, with nothing selected and nothing saved. */
  ghost predicate Halted(t: Transfer, n: Node, flash: seq<Byte>) {
    && WellFormed(n) && n.config.Some? && n.config.value.errorCode == MDF_ERR_MUPGRADE_STOP
    && n.config.value.name == t.name && n.config.value.totalSize == |t.image| && n.config.value.writtenSize == 0
    && n.saved.None? && !n.bootsUpdate && n.update == flash
  }

  lemma HaltedStays(t: Transfer, n: Node, flash: seq<Byte>, op: Op)
    requires t.Valid() && Halted(t, n, flash) && op != Reboot
    ensures var (n', reports) := Apply(t, n, op);
            Halted(t, n', flash) && forall r | r in reports :: r.errorCode == MDF_ERR_MUPGRADE_STOP && r.writtenSize == 0
  {
  }

  lemma {:induction false} HaltedForGood(t: Transfer, n: Node, flash: seq<Byte>, ops: seq<Op>)
    requires t.Valid() && Halted(t, n, flash) && Reboot !in ops
    ensures Halted(t, Run(t, n, ops), flash)
    decreases |ops|
  {
    if ops != [] {
      HaltedStays(t, n, flash, ops[0]);
      HaltedForGood(t, Apply(t, n, ops[0]).0, flash, ops[1..]);
    }
  }

  /** A stopped device says so, whenever it is stopped and whatever packet it gets. */
  lemma StopIsReported(n: Node, p: Packet, bootOk: bool)
    requires WellFormed(n) && n.config.Some?
    requires p.size <= |p.data| && (p.seqNo < PACKET_NUM || n.config.value.totalSize < p.seqNo * PACKET_SIZE)
    ensures var c := n.config.value;
            var (stopped, reports) := HandleStop(n);
            && reports == [Report(MDF_ERR_MUPGRADE_STOP, c.totalSize, 0, [])]
            && stopped.saved.None? && stopped.config.value.errorCode == MDF_ERR_MUPGRADE_STOP
            && stopped.config.value.writtenSize == 0 && Members(stopped.config.value.bitmap) == {}
            && stopped.config.value.name == c.name && stopped.config.value.totalSize == c.totalSize
            && stopped.update == n.update && stopped.running == n.running
            && (stopped.bootsUpdate <==> n.bootsUpdate && !n.finished)
            && (c.errorCode == MDF_ERR_MUPGRADE_STOP ==>
                  var (n', again, ret) := HandleData(n, p, bootOk);
                  && again == reports && ret == MDF_OK && n'.update == n.update && n'.saved.None?
                  && n'.config.Some? && n'.config.value.writtenSize == 0 && Members(n'.config.value.bitmap) == {})
  {
    MembersZeros(BITMAP_SIZE);
  }

  /** mupgrade_stop takes effect exactly if the config is in RAM. After a restart and before the
      first message it does nothing, and the download resumes. */
  lemma StopTakesEffectIff(t: Transfer, n: Node)
    requires t.Valid() && UpgradeInvariant.Inv(t, n)
    ensures Halted(t, HandleStop(n).0, n.update) <==> n.config.Some?
    ensures n.config.None? ==> HandleStop(n) == (n, [])
  {
  }

  /** Where it takes effect, mupgrade_stop revokes even a finished upgrade: whatever arrives
      afterwards, nothing more is written, every report says that the device has stopped, and a
      restart brings up the partition that is running now. Elsewhere it changes nothing. */
  lemma StopIsFinal(t: Transfer, n: Node, ops: seq<Op>)
    requires t.Valid() && UpgradeInvariant.Inv(t, n) && Reboot !in ops
    ensures var (stopped, reports) := HandleStop(n);
            var later := Run(t, stopped, ops);
            if n.config.Some? then
              && Halted(t, later, n.update)
              && PowerCycle(later).running == later.running && PowerCycle(later).saved.None?
            else
              stopped == n && reports == []
  {
    StopTakesEffectIff(t, n);
    if n.config.Some? {
      HaltedForGood(t, HandleStop(n).0, n.update, ops);
    }
  }

  // ---------- whom the packets are addressed to ----------

  ghost predicate Reaches(d: Destination, a: Addr, root: Addr) {
    match d
    case Everyone => true
    case EveryoneButRoot => a != root
    case Listed(addrs) => a in addrs
  }

  ghost predicate AllReach(sent: seq<Sent>, a: Addr, root: Addr) {
    forall i | 0 <= i < |sent| :: Reaches(sent[i].dest, a, root)
  }

  lemma {:induction false} RequestedShrinks(r: Root, ms: seq<Msg>, a: Addr)
    requires a in DrainMid(r, ms).0.requested
    ensures a in r.requested
    decreases |ms|
  {
    if ms != [] {
      var s := MidStep(r, ms[0]);
      if a in s.requested {
        StaysRequested(r, ms[0], a);
      } else {
        RequestedShrinks(s, ms[1..], a);
      }
    }
  }

  lemma StaysRequested(r: Root, m: Msg, a: Addr)
    requires a in MidStep(r, m).requested
    ensures a in r.requested
  {
    RemovedWasThere(r.requested, m.src, a);
  }

  lemma RemovedWasThere(list: seq<Addr>, x: Addr, a: Addr)
    ensures a in RemoveFirst(list, x) ==> a in list
  {
    RemoveFirstContents(list, x);
    assert a in RemoveFirst(list, x) ==> a in multiset(RemoveFirst(list, x));
  }

  lemma TurnReaches(r: Root, targets: Targets, round: Round, k: nat, root: Addr, a: Addr)
    requires |r.progress| == BITMAP_SIZE && k < PACKET_NUM && a != root
    requires a in PacketStep(r, targets, round, k).0.requested
    ensures a in r.requested && AllReach(PacketStep(r, targets, round, k).1, a, root)
  {
    if !GetBit(r.progress, k) && round.unreadable != Some(k) {
      RequestedShrinks(r, round.Mid(k), a);
    }
  }

  lemma {:induction false} RequestedAtEnd(r: Root, targets: Targets, round: Round, packetNum: nat, k: nat, sent: seq<Sent>, a: Addr)
    requires |r.progress| == BITMAP_SIZE && packetNum <= PACKET_NUM
    requires a in SendPackets(r, targets, round, packetNum, k, sent).0.requested
    ensures a in r.requested
    decreases packetNum - k
  {
    if r.requested != [] && k < packetNum && !round.StopsAt(k) {
      var (m, now, exit) := PacketStep(r, targets, round, k);
      if !exit {
        RequestedAtEnd(m, targets, round, packetNum, k + 1, sent + now, a);
      }
      if !GetBit(r.progress, k) && round.unreadable != Some(k) {
        RequestedShrinks(r, round.Mid(k), a);
      }
    }
  }

  /** Each packet of a round is addressed to every device that stays requested, whichever way the
      targets were given and however the destination changes on the way. */
  lemma {:induction false} PacketsReachRequested(r: Root, targets: Targets, round: Round, packetNum: nat, k: nat, sent: seq<Sent>,
                                                 root: Addr, a: Addr)
    requires |r.progress| == BITMAP_SIZE && packetNum <= PACKET_NUM && a != root && AllReach(sent, a, root)
    requires a in SendPackets(r, targets, round, packetNum, k, sent).0.requested
    ensures AllReach(SendPackets(r, targets, round, packetNum, k, sent).1, a, root)
    decreases packetNum - k
  {
    if r.requested != [] && k < packetNum && !round.StopsAt(k) {
      var (m, now, exit) := PacketStep(r, targets, round, k);
      SendPacketsTurn(r, targets, round, packetNum, k, sent);
      if !exit {
        RequestedAtEnd(m, targets, round, packetNum, k + 1, sent + now, a);
        TurnReaches(r, targets, round, k, root, a);
        PacketsReachRequested(m, targets, round, packetNum, k + 1, sent + now, root, a);
      } else {
        TurnReaches(r, targets, round, k, root, a);
      }
    }
  }

  /** Packets go to the devices in the list alone. */
  ghost predicate Selective(targets: Targets, successed: seq<Addr>) {
    targets.List? || 2 <= |successed|
  }

  /** Whom one packet may reach, with these devices requested: those alone, all but the root, or all. */
  ghost predicate MayReach(targets: Targets, successed: seq<Addr>, requested: seq<Addr>, a: Addr, root: Addr) {
    if Selective(targets, successed) then a in requested
    else (targets.Any? && successed == []) || a != root
  }

  /** No packet reaches anyone it must not; unless it goes to a list, it reaches all the others. */
  ghost predicate Addressed(sent: seq<Sent>, targets: Targets, r: Root, a: Addr, root: Addr) {
    forall i | 0 <= i < |sent| ::
      var may := MayReach(targets, r.successed, r.requested, a, root);
      if Selective(targets, r.successed) then Reaches(sent[i].dest, a, root) ==> may
      else Reaches(sent[i].dest, a, root) <==> may
  }

  lemma {:induction false} DrainMidKeepsSuccessed(r: Root, ms: seq<Msg>)
    requires forall m | m in ms :: 0 < m.report.totalSize
    ensures DrainMid(r, ms).0.successed == r.successed
    decreases |ms|
  {
    if ms != [] {
      assert ms[0] in ms;
      DrainMidKeepsSuccessed(MidStep(r, ms[0]), ms[1..]);
    }
  }

  /** With a list, a packet reaches exactly those still requested once the queue has been emptied. */
  lemma TurnReachesNobodyElse(r: Root, targets: Targets, round: Round, k: nat, root: Addr, a: Addr)
    requires |r.progress| == BITMAP_SIZE && k < PACKET_NUM && MidsNotEmpty(round)
    ensures var (m, now, exit) := PacketStep(r, targets, round, k);
            && m.successed == r.successed && (a in m.requested ==> a in r.requested)
            && Addressed(now, targets, r, a, root)
            && (Selective(targets, r.successed) ==>
                  forall i | 0 <= i < |now| :: Reaches(now[i].dest, a, root) <==> a in m.requested)
  {
    if !GetBit(r.progress, k) && round.unreadable != Some(k) {
      assert round.Mid(k) != [] ==> round.Mid(k) in round.mids;
      DrainMidKeepsSuccessed(r, round.Mid(k));
      var m := DrainMid(r, round.Mid(k)).0;
      if a in m.requested {
        RequestedShrinks(r, round.Mid(k), a);
      }
    }
  }

  /** The other half: no packet of a round reaches anyone it is not meant for. With a list of
      targets, or once two devices have succeeded, that is whoever is not requested. Otherwise each
      packet reaches all devices but the root, and the root as well with MWIFI_ADDR_ANY and no
      success so far. */
  lemma {:induction false} PacketsReachNobodyElse(r: Root, targets: Targets, round: Round, packetNum: nat, k: nat, sent: seq<Sent>,
                                                  start: Root, root: Addr, a: Addr)
    requires |r.progress| == BITMAP_SIZE && packetNum <= PACKET_NUM && MidsNotEmpty(round)
    requires r.successed == start.successed && (a in r.requested ==> a in start.requested)
    requires Addressed(sent, targets, start, a, root)
    ensures Addressed(SendPackets(r, targets, round, packetNum, k, sent).1, targets, start, a, root)
    decreases packetNum - k
  {
    if r.requested != [] && k < packetNum && !round.StopsAt(k) {
      var (m, now, exit) := PacketStep(r, targets, round, k);
      SendPacketsTurn(r, targets, round, packetNum, k, sent);
      TurnReachesNobodyElse(r, targets, round, k, root, a);
      if !exit {
        PacketsReachNobodyElse(m, targets, round, packetNum, k + 1, sent + now, start, root, a);
      }
    }
  }

  // ---------- the last status request ----------

  /** Nobody stops, and whoever is asked says that it is done. */
  ghost predicate AllFinished(ms: seq<Msg>, asked: seq<Addr>) {
    forall m | m in ms :: m.Readable() && !m.Stopped() && (m.src in asked ==> m.Complete() && m.report.writtenSize != 0)
  }

  ghost predicate Answers(ms: seq<Msg>, a: Addr) {
    exists m :: m in ms && m.src == a
  }

  /** The device answers one of the up to three requests. */
  ghost predicate Replies(attempts: seq<seq<Msg>>, a: Addr) {
    exists ms :: ms in attempts && Answers(ms, a)
  }

  /** Whom a status request goes to: those still unfinished when the queue is empty. */
  function Recipients(r: Root, drained: seq<Msg>): seq<Addr> {
    Drain(r.(requested := []), drained).unfinished
  }

  /** Nobody requested so far, and everybody unfinished is still to answer. */
  ghost predicate Waiting(r: Root, asked: seq<Addr>) {
    && NoDup(r.unfinished) && NoDup(r.pending) && r.requested == []
    && (forall a :: a in r.unfinished <==> a in r.pending)
    && forall a | a in r.pending :: a in asked
  }

  lemma FinishedAnswer(r: Root, m: Msg, asked: seq<Addr>)
    requires Waiting(r, asked) && |r.progress| == BITMAP_SIZE && AllFinished([m], asked)
    ensures m in [m] && m.Readable()
    ensures var s := ResponseStep(r, m);
            && Waiting(s, asked) && s.progress == r.progress
            && forall a :: a in s.pending <==> a in r.pending && a != m.src
  {
    assert m in [m];
    if m.src in r.pending {
      NoDupRemove(r.pending, m.src);
      NoDupRemove(r.unfinished, m.src);
    }
  }

  lemma {:induction false} FinishedAnswers(r: Root, ms: seq<Msg>, asked: seq<Addr>)
    requires Waiting(r, asked) && |r.progress| == BITMAP_SIZE && AllFinished(ms, asked)
    ensures AllReadable(ms)
    ensures var s := Collect(r, ms);
            && Waiting(s, asked) && s.progress == r.progress
            && forall a :: a in s.pending ==> a in r.pending && !Answers(ms, a)
    decreases |ms|
  {
    if ms != [] && r.pending != [] {
      assert ms[0] in ms;
      FinishedAnswer(r, ms[0], asked);
      FinishedAnswers(ResponseStep(r, ms[0]), ms[1..], asked);
      forall a | !Answers(ms[1..], a) && a != ms[0].src ensures !Answers(ms, a) {
        assert forall m | m in ms :: m == ms[0] || m in ms[1..];
      }
    }
  }

  lemma {:induction false} FinishedAttempts(r: Root, attempts: seq<seq<Msg>>, asked: seq<Addr>)
    requires Waiting(r, asked) && |r.progress| == BITMAP_SIZE && forall ms | ms in attempts :: AllFinished(ms, asked)
    ensures forall ms | ms in attempts :: AllReadable(ms)
    ensures var s := Attempts(r, attempts);
            && Waiting(s, asked) && s.progress == r.progress
            && forall a :: a in s.pending ==> a in r.pending && !Replies(attempts, a)
    decreases |attempts|
  {
    if attempts != [] && r.pending != [] {
      FinishedAnswers(r, attempts[0], asked);
      FinishedAttempts(Collect(r, attempts[0]), attempts[1..], asked);
      forall a | !Replies(attempts[1..], a) && !Answers(attempts[0], a) ensures !Replies(attempts, a) {
        assert forall ms | ms in attempts :: ms == attempts[0] || ms in attempts[1..];
      }
    }
  }

  /** How the root learns that it is done: if nobody stops and each device that is still unfinished
      once the queue is empty answers one of the up to three requests with a completion report,
      the status request returns MDF_OK and they are all successed. */
  lemma LastStatusRequest(r: Root, drained: seq<Msg>, attempts: seq<seq<Msg>>)
    requires NoDup(r.unfinished + r.successed) && |r.progress| == BITMAP_SIZE && |attempts| <= REQUEST_COUNT
    requires forall m | m in drained :: !m.Stopped()
    requires forall ms | ms in attempts :: AllFinished(ms, Recipients(r, drained))
    requires forall a | a in Recipients(r, drained) :: Replies(attempts, a)
    ensures forall ms | ms in attempts :: AllReadable(ms)
    ensures var (s, ret) := RequestStatus(r, drained, attempts);
            && ret == MDF_OK && s.unfinished == [] && s.requested == []
            && forall a | a in r.unfinished || a in r.successed :: a in s.successed
  {
    assert forall ms | ms in attempts :: AllReadable(ms);
    var r0 := r.(requested := []);
    var d := Drain(r0, drained);
    DrainAccounts(r0, drained);
    DrainKeepsRequested(r0, drained);
    NoDupConcat(d.unfinished, d.successed);
    if d.unfinished != [] {
      AnsweredByAll(BeginRequest(d), attempts);
    }
    RequestAccounts(r, drained, attempts);
    NobodyStops(drained, attempts, d.unfinished);
    NobodyStopped(r, RequestStatus(r, drained, attempts).0, Messages(drained) + AllMessages(attempts));
  }

  lemma NobodyStops(drained: seq<Msg>, attempts: seq<seq<Msg>>, asked: seq<Addr>)
    requires (forall m | m in drained :: !m.Stopped()) && forall ms | ms in attempts :: AllFinished(ms, asked)
    ensures forall m | m in Messages(drained) + AllMessages(attempts) :: !m.Stopped()
  {
  }

  /** Where nobody stops, whoever is not unfinished any more has made it. */
  lemma NobodyStopped(r: Root, s: Root, ms: set<Msg>)
    requires Accounts(r, s, ms) && (forall m | m in ms :: !m.Stopped()) && s.unfinished == []
    ensures forall a | a in r.unfinished || a in r.successed :: a in s.successed
  {
    AccountsMeaning(r, s, ms);
  }

  lemma AnsweredByAll(b: Root, attempts: seq<seq<Msg>>)
    requires Waiting(b, b.pending) && b.progress == Ones(BITMAP_SIZE) && forall ms | ms in attempts :: AllFinished(ms, b.pending)
    requires forall a | a in b.pending :: Replies(attempts, a)
    ensures forall ms | ms in attempts :: AllReadable(ms)
    ensures var s := Attempts(b, attempts);
            s.unfinished == [] && s.requested == [] && RequestResult(s) == MDF_OK
  {
    FinishedAttempts(b, attempts, b.pending);
    var s := Attempts(b, attempts);
    NobodyLeft(s.pending);
    NobodyLeft(s.unfinished);
  }
}
