/** mdebug_flash.c as it runs: two entries of sizes and offsets, an index and the flash, all
    updated in place, proved against `FlashLog`. */
module FlashLogDevice {
  import opened Prelude
  import opened Flash
  import opened FlashLog

  const FILE_NUM := 2

  datatype WriteResult = Ok | Failed | InvalidArg

  class Device {
    const segment: nat
    const flash: array<Byte>
    const size: array<nat>
    const offset: array<nat>
    var index: nat
    var stamp: bool

    ghost predicate Shape()
      reads this
    {
      && size.Length == FILE_NUM && offset.Length == FILE_NUM && 2 * segment <= flash.Length
      && size != offset && flash as object != size && flash as object != offset
      && index < FILE_NUM
    }

    ghost predicate Valid()
      reads this, flash, size, offset
    {
      Shape() && Bounded(State())
    }

    ghost function InfoAt(i: nat): Info
      requires i < size.Length && i < offset.Length
      reads size, offset
    {
      Info(size[i], offset[i])
    }

    ghost function State(): Log
      requires size.Length == FILE_NUM && offset.Length == FILE_NUM && index < FILE_NUM
      reads this, flash, size, offset
    {
      Log(segment, flash[..], index, InfoAt(index), InfoAt(1 - index), stamp)
    }

    /** g_log_info[i].addr */
    function Addr(i: nat): nat {
      if i == 0 then 0 else segment
    }

    /** mdebug_flash_init on an empty NVS: everything erased. The partition may be larger than
        the log. */
    constructor (segment: nat, partition: nat)
      requires 2 * segment <= partition
      ensures Valid() && fresh(flash) && fresh(size) && fresh(offset)
      ensures State() == Log(segment, seq(partition, _ => 0xFF), 0, Info(0, 0), Info(0, 0), true)
    {
      this.segment := segment;
      flash := new Byte[partition](_ => 0xFF);
      size := new nat[FILE_NUM](_ => 0);
      offset := new nat[FILE_NUM](_ => 0);
      index, stamp := 0, true;
    }

    method EraseFlash(at: nat, n: nat)
      requires at + n <= flash.Length
      modifies flash
      ensures flash[..] == EraseRange(old(flash[..]), at, n)
    {
      for i := at to at + n
        invariant forall k | 0 <= k < flash.Length :: flash[k] == if at <= k < i then 0xFF else old(flash[k])
      {
        flash[i] := 0xFF;
      }
      assert flash[..] == EraseRange(old(flash[..]), at, n);
    }

    /** The next file is cleared and selected. */
    method RotateFiles()
      requires Valid()
      modifies this`index, flash, size, offset
      ensures Valid() && State() == Rotate(old(State()))
    {
      index := (index + 1) % FILE_NUM;
      size[index] := 0;
      offset[index] := 0;
      EraseFlash(Addr(index), segment);
    }

    /** Writes behind the current end of the current file. */
    method PutBytes(data: seq<Byte>)
      requires Shape() && End(State()) + |data| <= flash.Length
      modifies flash, size
      ensures State() == Put(old(State()), data)
    {
      WriteFlash(flash, Addr(index) + size[index], data);
      size[index] := size[index] + |data|;
    }

    /** esp_partition_write with the driver's check, and the new size of the file. */
    method TryPut(data: seq<Byte>) returns (ok: bool)
      requires Shape()
      modifies flash, size
      ensures ok <==> old(End(State())) + |data| <= flash.Length
      ensures State() == if ok then Put(old(State()), data) else old(State())
    {
      ok := Addr(index) + size[index] + |data| <= flash.Length;
      if ok {
        PutBytes(data);
      }
    }

    /** mdebug_flash_write */
    method Write(text: seq<Byte>, data: seq<Byte>) returns (ret: WriteResult)
      requires Valid()
      modifies this`index, this`stamp, flash, size, offset
      ensures ret == InvalidArg <==> data == []
      ensures Shape()
      ensures if data == [] then State() == old(State())
              else (State(), ret == Ok) == FlashLog.Write(old(State()), text, data)
      ensures data != [] && old(Fits(State(), text, data) && Inv(State())) ==> ret == Ok && Valid() && Inv(State())
    {
      if data == [] {
        return InvalidArg;
      }
      ghost var before := State();
      if size[index] + |data| > segment {
        RotateFiles();
      }
      ret := AppendBytes(text, data);
      if Fits(before, text, data) && Inv(before) {
        WriteMeaning(before, text, data);
      }
    }

    /** The timestamp, at the beginning of a line, and the chunk. */
    method AppendBytes(text: seq<Byte>, data: seq<Byte>) returns (ret: WriteResult)
      requires Shape() && data != []
      modifies this`stamp, flash, size
      ensures Shape() && ret != InvalidArg
      ensures var l := old(State());
              ret == Ok <==> End(l) + |Stamped(l, text, data)| <= |l.flash|
      ensures var l := old(State());
              State() ==
              if ret == Ok then Append(l, text, data)
              else if l.stamp && End(l) + |text| <= |l.flash| then PutStamp(l, text) else l.(stamp := false)
    {
      var ok := WriteTimestamp(text);
      if ok {
        ok := TryPut(data);
      }
      if !ok {
        return Failed;
      }
      if data[|data| - 1] == NEWLINE {
        stamp := true;
      }
      return Ok;
    }

    method WriteTimestamp(text: seq<Byte>) returns (ok: bool)
      requires Shape()
      modifies this`stamp, flash, size
      ensures Shape() && !stamp && (ok <==> old(stamp ==> End(State()) + |text| <= flash.Length))
      ensures State() == if ok then PutStamp(old(State()), text) else old(State()).(stamp := false)
    {
      ok := true;
      if stamp {
        stamp := false;
        ok := TryPut(text);
      }
    }

    /** One turn of the loop of mdebug_flash_read. */
    method ReadFile(i: nat, wanted: nat) returns (chunk: seq<Byte>)
      requires Valid() && i < FILE_NUM
      modifies offset
      ensures Valid()
      ensures (State(), chunk) == if i == 0 then ReadOlder(old(State()), wanted) else ReadCurrent(old(State()), wanted)
    {
      var f := (index + 1 + i) % FILE_NUM;
      WhichFile(index, i);
      chunk := TakeFrom(f, wanted);
    }

    /** The next bytes of one file. */
    method TakeFrom(f: nat, wanted: nat) returns (chunk: seq<Byte>)
      requires Shape() && f < FILE_NUM && offset[f] <= size[f] <= segment
      modifies offset
      ensures var n := Taken(old(InfoAt(f)), wanted);
              && InfoAt(f) == Advance(old(InfoAt(f)), n) && InfoAt(1 - f) == old(InfoAt(1 - f))
              && chunk == Part(flash[..], Addr(f), old(InfoAt(f)))[..n]
    {
      var k := Min(wanted, size[f] - offset[f]);
      chunk := ReadFlash(Addr(f), Info(size[f], offset[f]), k);
      offset[f] := offset[f] + k;
    }

    lemma WhichFile(index: nat, i: nat)
      requires index < FILE_NUM && i < FILE_NUM
      ensures (index + 1 + i) % FILE_NUM == if i == 0 then 1 - index else index
    {
    }

    /** mdebug_flash_read */
    method Read(wanted: nat) returns (out: seq<Byte>)
      requires Valid()
      modifies offset
      ensures Valid() && (State(), out) == FlashLog.Read(old(State()), wanted)
    {
      ghost var l := State();
      out := [];
      var i := 0;
      while i < FILE_NUM && wanted > |out|
        invariant i <= FILE_NUM && Valid() && |out| <= wanted
        invariant i == 0 ==> State() == l && out == []
        invariant i == 1 ==> (State(), out) == ReadOlder(l, wanted)
        invariant i == 2 ==> (State(), out) == FlashLog.Read(l, wanted)
      {
        var chunk := ReadFile(i, wanted - |out|);
        assert [] + chunk == chunk;
        out := out + chunk;
        i := i + 1;
      }
      if i == 0 {
        ReadNothing(l);
      } else if i == 1 {
        ReadNothing(State());
        assert out + [] == out;
      }
    }

    lemma ReadNothing(l: Log)
      requires Bounded(l)
      ensures ReadOlder(l, 0) == (l, []) && ReadCurrent(l, 0) == (l, []) && FlashLog.Read(l, 0) == (l, [])
    {
      var nothing: seq<Byte> := [];
      assert nothing + nothing == nothing;
    }

    /** esp_partition_read behind the read offset of a file. */
    function ReadFlash(addr: nat, info: Info, k: nat): (r: seq<Byte>)
      requires info.offset + k <= info.size && addr + info.size <= flash.Length
      reads flash
      ensures r == Part(flash[..], addr, info)[..k]
    {
      SliceParts(flash[..], addr + info.offset, addr + info.size, k);
      assert flash[addr + info.offset..addr + info.offset + k] == flash[..][addr + info.offset..addr + info.offset + k];
      flash[addr + info.offset..addr + info.offset + k]
    }

    /** mdebug_flash_size is the length of the FIFO. */
    method Size() returns (n: nat)
      requires Valid()
      ensures n == |Unread(State())|
    {
      n := 0;
      for i := 0 to FILE_NUM
        invariant i == 0 ==> n == 0
        invariant i == 1 ==> n == size[0] - offset[0]
        invariant i == 2 ==> n == |Unread(State())|
      {
        if size[i] >= offset[i] {
          n := n + (size[i] - offset[i]);
        }
      }
    }
  }
}
