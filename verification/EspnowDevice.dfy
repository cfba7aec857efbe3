/** mespnow.c as it runs: the callback that fills the queues, the loops of mespnow_write with
    its retries and those of mespnow_read, each proved against `Espnow`. */
module EspnowDevice {
  import opened Prelude
  import opened Espnow

  ghost predicate AllFor(pipe: nat, fs: seq<Frame>) {
    forall i | 0 <= i < |fs| :: fs[i].pipe == pipe && fs[i].oui == OUI
  }

  function Head(arrivals: seq<seq<Frame>>): seq<Frame> {
    if arrivals == [] then [] else arrivals[0]
  }

  function Tail(arrivals: seq<seq<Frame>>): seq<seq<Frame>> {
    if arrivals == [] then [] else arrivals[1..]
  }

  /** The rest of a call from the head of its second loop on. */
  function SecondLoop(p: Pipe, expected: nat, total: nat, buf: seq<Byte>, arrivals: seq<seq<Frame>>, crc: Checksum)
      : (r: (ReadResult, Pipe)) {
    if |buf| >= total then (Done(buf), p) else ReadOn(p, Collecting(expected, total, buf), arrivals, crc)
  }

  /** The receiving side: g_last_magic and g_espnow_queue. */
  class Receiver {
    const crc: Checksum
    const capacity: seq<nat>
    const lastMagic: array<nat>
    const queue: array<seq<Frame>>

    ghost predicate Valid() {
      |capacity| == PIPE_MAX && lastMagic.Length == PIPE_MAX && queue.Length == PIPE_MAX
    }

    ghost function PipeAt(i: nat): Pipe
      requires Valid() && i < PIPE_MAX
      reads lastMagic, queue
    {
      Pipe(lastMagic[i], queue[i], capacity[i])
    }

    constructor (crc: Checksum, capacity: seq<nat>)
      requires |capacity| == PIPE_MAX
      ensures Valid() && fresh(lastMagic) && fresh(queue)
      ensures this.crc == crc && this.capacity == capacity
      ensures forall i: nat | i < PIPE_MAX :: PipeAt(i) == Pipe(0, [], capacity[i])
    {
      this.crc, this.capacity := crc, capacity;
      lastMagic := new nat[PIPE_MAX](_ => 0);
      queue := new seq<Frame>[PIPE_MAX](_ => []);
    }

    /** mespnow_recv_cb: a frame can change its own pipe only. */
    method RecvCb(f: Frame)
      requires Valid()
      modifies lastMagic, queue
      ensures forall i: nat | i < PIPE_MAX ::
                PipeAt(i) == if i == f.pipe && f.oui == OUI then Accept(old(PipeAt(i)), f, crc) else old(PipeAt(i))
    {
      if f.pipe >= PIPE_MAX || f.oui != OUI || lastMagic[f.pipe] == f.magic {
        return;
      }
      lastMagic[f.pipe] := f.magic;
      if f.crc != crc(f.payload) || |queue[f.pipe]| >= capacity[f.pipe] {
        return;
      }
      queue[f.pipe] := queue[f.pipe] + [f];
    }

    /** The callback for several frames of one pipe. */
    method RecvAll(pipe: nat, fs: seq<Frame>)
      requires Valid() && pipe < PIPE_MAX && AllFor(pipe, fs)
      modifies lastMagic, queue
      ensures PipeAt(pipe) == AcceptAll(old(PipeAt(pipe)), fs, crc)
      ensures forall i: nat | i < PIPE_MAX && i != pipe :: PipeAt(i) == old(PipeAt(i))
    {
      for k := 0 to |fs|
        invariant AcceptAll(PipeAt(pipe), fs[k..], crc) == AcceptAll(old(PipeAt(pipe)), fs, crc)
        invariant forall i: nat | i < PIPE_MAX && i != pipe :: PipeAt(i) == old(PipeAt(i))
      {
        assert fs[k..][0] == fs[k] && fs[k..][1..] == fs[k + 1..];
        RecvCb(fs[k]);
      }
    }

    /** xQueueReceive: the callback works until the wait ends. */
    method Await(pipe: nat, arriving: seq<Frame>) returns (f: Option<Frame>)
      requires Valid() && pipe < PIPE_MAX && AllFor(pipe, arriving)
      modifies lastMagic, queue
      ensures var p := AcceptAll(old(PipeAt(pipe)), arriving, crc);
              if p.queue == [] then f == None && PipeAt(pipe) == p
              else f == Some(p.queue[0]) && PipeAt(pipe) == p.(queue := p.queue[1..])
      ensures forall i: nat | i < PIPE_MAX && i != pipe :: PipeAt(i) == old(PipeAt(i))
    {
      RecvAll(pipe, arriving);
      if queue[pipe] == [] {
        return None;
      }
      f := Some(queue[pipe][0]);
      queue[pipe] := queue[pipe][1..];
    }

    /** mespnow_read. While it waits, the callback goes on working: arrivals[k] are the frames of
        this pipe that come in before the k-th wait ends. A wait fails if nothing is queued then. */
    method Read(pipe: nat, size: nat, arrivals: seq<seq<Frame>>) returns (r: ReadResult)
      requires Valid() && pipe < PIPE_MAX && forall fs | fs in arrivals :: AllFor(pipe, fs)
      modifies lastMagic, queue
      ensures (r, PipeAt(pipe)) == ReadOn(old(PipeAt(pipe)), Waiting(size), arrivals, crc)
      ensures forall i: nat | i < PIPE_MAX && i != pipe :: PipeAt(i) == old(PipeAt(i))
    {
      var later := arrivals;
      var first := false;
      var total, buf := 0, [];
      while !first
        invariant forall fs | fs in later :: AllFor(pipe, fs)
        invariant var here := if first then SecondLoop(PipeAt(pipe), 1, total, buf, later, crc)
                              else ReadOn(PipeAt(pipe), Waiting(size), later, crc);
                  here == ReadOn(old(PipeAt(pipe)), Waiting(size), arrivals, crc)
        invariant forall i: nat | i < PIPE_MAX && i != pipe :: PipeAt(i) == old(PipeAt(i))
        decreases !first, |later|, |queue[pipe]|
      {
        var f := Await(pipe, Head(later));
        later := Tail(later);
        if f == None {
          return Timeout;
        }
        first := f.value.seqNo == 0 && size > f.value.totalSize;
        if first {
          total, buf := f.value.totalSize, f.value.payload;
        }
      }
      r := Collect(pipe, total, buf, later);
    }

    /** The second loop. */
    method Collect(pipe: nat, total: nat, first: seq<Byte>, arrivals: seq<seq<Frame>>) returns (r: ReadResult)
      requires Valid() && pipe < PIPE_MAX && forall fs | fs in arrivals :: AllFor(pipe, fs)
      modifies lastMagic, queue
      ensures (r, PipeAt(pipe)) == SecondLoop(old(PipeAt(pipe)), 1, total, first, arrivals, crc)
      ensures forall i: nat | i < PIPE_MAX && i != pipe :: PipeAt(i) == old(PipeAt(i))
    {
      var later, buf, expected := arrivals, first, 1;
      while |buf| < total
        invariant forall fs | fs in later :: AllFor(pipe, fs)
        invariant SecondLoop(PipeAt(pipe), expected, total, buf, later, crc) ==
                  SecondLoop(old(PipeAt(pipe)), 1, total, first, arrivals, crc)
        invariant forall i: nat | i < PIPE_MAX && i != pipe :: PipeAt(i) == old(PipeAt(i))
        decreases |later|, |queue[pipe]|
      {
        var f := Await(pipe, Head(later));
        later := Tail(later);
        if f == None {
          return Timeout;
        }
        if f.value.seqNo != expected {
          return Fail;
        }
        buf := buf + f.value.payload;
        expected := expected + 1;
      }
      return Done(buf);
    }
  }

  datatype WriteResult = Ok | Failed | InvalidArg

  /** The retry loop of mespnow_write: attempts until one is acknowledged. */
  method TransmitFrame(rx: Receiver, f: Frame, attempts: seq<Attempt>) returns (ok: bool)
    requires rx.Valid() && f.pipe < PIPE_MAX && f.oui == OUI
    requires attempts != []
    modifies rx.lastMagic, rx.queue
    ensures (rx.PipeAt(f.pipe), ok) == SendFrame(old(rx.PipeAt(f.pipe)), f, attempts, rx.crc)
    ensures forall i: nat | i < PIPE_MAX && i != f.pipe :: rx.PipeAt(i) == old(rx.PipeAt(i))
  {
    var k := 0;
    ok := false;
    while !ok && k < |attempts|
      invariant k <= |attempts|
      invariant SendFrame(old(rx.PipeAt(f.pipe)), f, attempts, rx.crc) ==
                if ok then (rx.PipeAt(f.pipe), true) else SendFrame(rx.PipeAt(f.pipe), f, attempts[k..], rx.crc)
      invariant forall i: nat | i < PIPE_MAX && i != f.pipe :: rx.PipeAt(i) == old(rx.PipeAt(i))
    {
      assert attempts[k..][0] == attempts[k] && attempts[k..][1..] == attempts[k + 1..];
      if attempts[k].Error? {
        return false;
      }
      if attempts[k].arrival != Nothing {
        rx.RecvCb(Arrived(f, attempts[k].arrival));
      }
      ok := attempts[k].acked;
      k := k + 1;
    }
  }

  /** mespnow_write */
  method Write(rx: Receiver, pipe: nat, data: seq<Byte>, air: seq<Transmission>) returns (ret: WriteResult)
    requires rx.Valid() && |air| == FrameCount(data) && forall i | 0 <= i < |air| :: air[i].Valid(rx.crc)
    modifies rx.lastMagic, rx.queue
    ensures ret == InvalidArg <==> data == [] || pipe >= PIPE_MAX
    ensures ret != InvalidArg ==>
              (rx.PipeAt(pipe), ret == Ok) == SendMessage(old(rx.PipeAt(pipe)), pipe, data, 0, air, rx.crc)
    ensures forall i: nat | i < PIPE_MAX && (ret == InvalidArg || i != pipe) :: rx.PipeAt(i) == old(rx.PipeAt(i))
  {
    if data == [] || pipe >= PIPE_MAX {
      return InvalidArg;
    }
    var i: nat := 0;
    while i < FrameCount(data)
      invariant i <= FrameCount(data)
      invariant SendMessage(rx.PipeAt(pipe), pipe, data, i, air, rx.crc) ==
                SendMessage(old(rx.PipeAt(pipe)), pipe, data, 0, air, rx.crc)
      invariant forall k: nat | k < PIPE_MAX && k != pipe :: rx.PipeAt(k) == old(rx.PipeAt(k))
    {
      assert air[i].Valid(rx.crc);
      var ok := TransmitFrame(rx, FrameAt(pipe, data, i, air[i].magic, rx.crc), air[i].attempts);
      if !ok {
        return Failed;
      }
      i := i + 1;
    }
    return Ok;
  }
}
