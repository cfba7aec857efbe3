/** mupgrade_node.c as it runs: a global config with a bitmap that is updated in place, two
    application partitions and one NVS entry. Every operation is proved to take the device
    from its old state to the one the functions of `UpgradeNode` prescribe. */
module UpgradeDevice {
  import opened Prelude
  import opened Flash
  import opened Bitmap
  import opened UpgradeNode

  class Device {
    const isRoot: bool
    const interval: nat
    // flash
    var update: array<Byte>
    var running: array<Byte>
    var bootsUpdate: bool
    var saved: Option<Status>
    // g_upgrade_config, allocated on first use
    var configured: bool
    var name: string
    var errorCode: int
    var totalSize: nat
    var writtenSize: nat
    const progress: array<Byte>
    // other statics
    var finished: bool
    var nextPercentage: nat

    /** Valid, except that the total sizes may be 0. */
    ghost predicate Allocated()
      reads this
    {
      && progress.Length == BITMAP_SIZE
      && progress != update && progress != running && update != running
      && 1 <= interval
      && (saved.Some? ==> |saved.value.bitmap| == SAVED_BITMAP_SIZE)
    }

    ghost predicate Valid()
      reads this
    {
      Allocated() && (configured ==> 0 < totalSize) && (saved.Some? ==> 0 < saved.value.totalSize)
    }

    ghost function Config(): Status
      reads this, progress
    {
      Status(name, errorCode, totalSize, writtenSize, progress[..])
    }

    ghost function State(): Node
      reads this, progress, update, running
    {
      Node(isRoot, interval, update[..], running[..], bootsUpdate,
           if configured then Some(Config()) else None, saved, finished, nextPercentage)
    }

    constructor (isRoot: bool, interval: nat, updateSlot: array<Byte>, runningSlot: array<Byte>)
      requires 1 <= interval && updateSlot != runningSlot
      ensures Valid() && fresh(this) && fresh(progress)
      ensures State() == Node(isRoot, interval, updateSlot[..], runningSlot[..], false, None, None, false, interval)
    {
      this.isRoot, this.interval := isRoot, interval;
      update, running, bootsUpdate, saved := updateSlot, runningSlot, false, None;
      configured, name, errorCode, totalSize, writtenSize := false, "", MDF_OK, 0, 0;
      progress := new Byte[BITMAP_SIZE](_ => 0);
      finished, nextPercentage := false, interval;
    }

    /** The lazy MDF_CALLOC and mdf_info_load: loads the bytes that were saved, the rest stays zero. */
    method LoadConfig()
      requires Allocated()
      modifies this`configured, this`name, this`errorCode, this`totalSize, this`writtenSize, progress
      ensures configured && Config() == old(Load(State()))
      ensures update[..] == old(update[..]) && running[..] == old(running[..])
    {
      if !configured {
        configured := true;
        name, errorCode, totalSize, writtenSize := "", MDF_OK, 0, 0;
        Fill(progress, 0);
        if saved.Some? {
          var s := saved.value;
          name, errorCode, totalSize, writtenSize := s.name, s.errorCode, s.totalSize, s.writtenSize;
          for i := 0 to SAVED_BITMAP_SIZE
            invariant forall k | 0 <= k < i :: progress[k] == s.bitmap[k]
            invariant forall k | i <= k < BITMAP_SIZE :: progress[k] == 0
            invariant configured && Config().(bitmap := []) == s.(bitmap := [])
          {
            progress[i] := s.bitmap[i];
          }
          assert progress[..] == Restore(s).bitmap;
        } else {
          assert progress[..] == Zeros(BITMAP_SIZE);
        }
      }
    }

    /** mdf_info_save: sizeof(mupgrade_status_t) + 512 bytes from the start of the config. */
    method SaveConfig()
      requires Allocated() && configured
      modifies this`saved
      ensures saved == Some(Save(Config()))
    {
      saved := Some(Status(name, errorCode, totalSize, writtenSize, progress[..SAVED_BITMAP_SIZE]));
      assert progress[..][..SAVED_BITMAP_SIZE] == progress[..SAVED_BITMAP_SIZE];
    }

    /** mupgrade_status */
    method HandleStatus(req: Request) returns (report: Report)
      requires Allocated()
      modifies this, progress, update
      ensures Allocated() && (old(Valid()) && 0 < req.totalSize ==> Valid())
      ensures update == old(update) && running == old(running)
      ensures (State(), report) == UpgradeNode.HandleStatus(old(State()), req)
    {
      LoadConfig();
      if !(name == req.name && totalSize == req.totalSize) {
        BeginUpgrade(req);
      }
      if errorCode != MDF_ERR_MUPGRADE_STOP {
        errorCode := MDF_OK;
      }
      report := Report(errorCode, totalSize, writtenSize,
                       if writtenSize != 0 && writtenSize != totalSize then progress[..] else []);
    }

    /** A request for a firmware other than the one in the config starts from scratch. */
    method BeginUpgrade(req: Request)
      requires Allocated() && configured
      modifies this, progress, update
      ensures Allocated() && (0 < req.totalSize && (old(saved).Some? ==> 0 < old(saved).value.totalSize) ==> Valid())
      ensures configured && update == old(update) && running == old(running)
      ensures var initial := Status(req.name, req.errorCode, req.totalSize, 0, Zeros(BITMAP_SIZE));
              State() ==
              if isRoot then
                old(State()).(bootsUpdate := true, finished := true,
                  config := Some(initial.(writtenSize := req.totalSize, bitmap := Ones(BITMAP_SIZE))))
              else
                old(State()).(finished := false, update := Erase(old(update[..])),
                  saved := Some(Save(initial)), config := Some(initial))
    {
      name, errorCode, totalSize, writtenSize := req.name, req.errorCode, req.totalSize, 0;
      Fill(progress, 0);
      assert progress[..] == Zeros(BITMAP_SIZE);
      if isRoot {
        bootsUpdate, finished := true, true;
        writtenSize := totalSize;
        Fill(progress, ALL_ONES);
        assert progress[..] == Ones(BITMAP_SIZE);
      } else {
        finished := false;
        Fill(update, ALL_ONES);
        assert update[..] == Erase(old(update[..]));
        SaveConfig();
      }
    }

    /** The periodic save and the percentage of the next one. */
    method TakeSnapshot()
      requires Valid() && configured
      modifies this`saved, this`nextPercentage
      ensures Valid() && State() == Snapshot(old(State()), old(Config()))
    {
      var percentage := writtenSize * 100 / totalSize;
      if percentage == nextPercentage {
        nextPercentage := nextPercentage + interval;
        SaveConfig();
      } else if percentage > nextPercentage {
        nextPercentage := (percentage / interval + 1) * interval;
      }
    }

    /** mupgrade_write */
    method Write(p: Packet, bootOk: bool) returns (reports: seq<Report>, ret: int)
      requires Valid() && p.size <= |p.data|
      requires p.seqNo < PACKET_NUM || Load(State()).totalSize < p.seqNo * PACKET_SIZE
      modifies this, progress, update
      ensures Valid() && update == old(update) && running == old(running)
      ensures (State(), reports, ret) == HandleData(old(State()), p, bootOk)
    {
      if !configured && saved.None? {
        return [], MDF_ERR_MUPGRADE_NOT_INIT;
      }
      LoadConfig();
      if errorCode == MDF_ERR_MUPGRADE_STOP {
        writtenSize := 0;
        Fill(progress, 0);
        assert progress[..] == Zeros(BITMAP_SIZE);
        saved := None;
        return [Report(errorCode, totalSize, writtenSize, [])], MDF_OK;
      }
      if p.seqNo * PACKET_SIZE > totalSize {
        return [], MDF_ERR_INVALID_ARG;
      }
      if GetBit(progress[..], p.seqNo) {
        return [], MDF_OK;
      }
      if p.seqNo * PACKET_SIZE + p.size > update.Length {
        return [], MDF_ERR_MUPGRADE_FIRMWARE_DOWNLOAD;
      }
      reports, ret := AcceptPacket(p, bootOk);
    }

    method AcceptPacket(p: Packet, bootOk: bool) returns (reports: seq<Report>, ret: int)
      requires Valid() && configured && p.seqNo < PACKET_NUM && p.size <= |p.data|
      requires p.seqNo * PACKET_SIZE + p.size <= update.Length
      modifies this, progress, update
      ensures Valid() && update == old(update) && running == old(running)
      ensures (State(), reports, ret) == Accept(old(State()), old(Config()), p, bootOk)
    {
      StorePacket(p);
      TakeSnapshot();
      reports, ret := [], MDF_OK;
      if writtenSize == totalSize {
        reports, ret := FinishUpgrade(bootOk);
      }
    }

    method StorePacket(p: Packet)
      requires Valid() && configured && p.seqNo < PACKET_NUM && p.size <= |p.data|
      requires p.seqNo * PACKET_SIZE + p.size <= update.Length
      modifies this`writtenSize, progress, update
      ensures Valid()
      ensures var c := old(Config());
              var c' := c.(bitmap := WithBit(c.bitmap, p.seqNo), writtenSize := c.writtenSize + p.size);
              && Config() == c'
              && State() == old(State()).(config := Some(c'),
                   update := Program(old(update[..]), p.seqNo * PACKET_SIZE, p.data[..p.size]))
    {
      WriteFlash(update, p.seqNo * PACKET_SIZE, p.data[..p.size]);
      SetBit(progress, p.seqNo);
      writtenSize := writtenSize + p.size;
    }

    method FinishUpgrade(bootOk: bool) returns (reports: seq<Report>, ret: int)
      requires Valid() && configured
      modifies this`saved, this`bootsUpdate, this`finished, this`writtenSize, this`errorCode
      ensures Valid() && (State(), reports, ret) == Finish(old(State()), old(Config()), bootOk)
    {
      saved := None;
      if bootOk {
        bootsUpdate, finished := true, true;
        return [Report(errorCode, totalSize, writtenSize, [])], MDF_OK;
      }
      writtenSize, errorCode := 0, MDF_ERR_MUPGRADE_STOP;
      return [], MDF_FAIL;
    }

    /** mupgrade_stop */
    method Stop() returns (reports: seq<Report>)
      requires Valid()
      modifies this, progress
      ensures Valid() && update == old(update) && running == old(running)
      ensures (State(), reports) == HandleStop(old(State()))
    {
      if !configured {
        return [];
      }
      if finished {
        bootsUpdate := false;
      }
      errorCode, writtenSize := MDF_ERR_MUPGRADE_STOP, 0;
      Fill(progress, 0);
      assert progress[..] == Zeros(BITMAP_SIZE);
      saved := None;
      reports := [Report(errorCode, totalSize, writtenSize, [])];
    }

    /** A reset: the boot loader starts the selected partition and RAM starts over. */
    method Reset()
      requires Valid()
      modifies this
      ensures Valid() && State() == PowerCycle(old(State()))
    {
      if bootsUpdate {
        update, running := running, update;
      }
      bootsUpdate, configured, finished, nextPercentage := false, false, false, interval;
    }
  }
}
