/** ESP-NOW pipes (mespnow.c): a message is split into frames, each frame is retried with the
    same magic, the receiver drops duplicates and queues the rest per pipe, and a reader puts
    messages together again, frame by frame while they arrive. */
module Espnow {
  import opened Prelude

  const PAYLOAD_LEN := 238
  const PIPE_MAX := 4
  const OUI: seq<Byte> := [0x4E, 0x4F]

  /** mespnow_head_data_t with its payload; the widths of its fields are uint8_t for seqNo and
      size and uint16_t for totalSize. */
  datatype Frame = Frame(oui: seq<Byte>, pipe: nat, crc: Byte, seqNo: nat, totalSize: nat, magic: nat, payload: seq<Byte>)

  /** One pipe of the receiver: g_last_magic and the queue. */
  datatype Pipe = Pipe(lastMagic: nat, queue: seq<Frame>, capacity: nat)

  /** crc8_le; nothing depends on which function it is. */
  type Checksum = seq<Byte> -> Byte

  // ---------- receiving a frame ----------

  /** mespnow_recv_cb from the duplicate filter on. */
  function Accept(p: Pipe, f: Frame, crc: Checksum): (r: Pipe) {
    if p.lastMagic == f.magic then p
    else
      var p := p.(lastMagic := f.magic);
      if f.crc != crc(f.payload) || |p.queue| >= p.capacity then p else p.(queue := p.queue + [f])
  }

  // ---------- sending a message ----------

  /** What arrives of a frame: nothing, the frame, or a copy whose checksum does not match. */
  datatype Arrival = Nothing | Intact | Damaged(crc: Byte, payload: seq<Byte>)

  function Arrived(f: Frame, a: Arrival): Frame {
    if a.Damaged? then f.(crc := a.crc, payload := a.payload) else f
  }

  /** The outcome of one esp_now_send: it fails at once, or something does or does not arrive
      and the acknowledgement is or is not seen. */
  datatype Attempt = Error | Attempt(arrival: Arrival, acked: bool) {
    predicate Valid(crc: Checksum) {
      Attempt? ==>
        && (acked ==> arrival != Nothing)
        && (arrival.Damaged? ==> arrival.crc != crc(arrival.payload))
    }

    predicate Undamaged() {
      Attempt? ==> !arrival.Damaged?
    }
  }

  /** What happens to one frame: the random magic and what would become of each of the
      CONFIG_MESPNOW_RETRANSMIT_NUM attempts. */
  datatype Transmission = Transmission(magic: nat, attempts: seq<Attempt>) {
    predicate Valid(crc: Checksum) {
      attempts != [] && forall a | a in attempts :: a.Valid(crc)
    }

    predicate Undamaged() {
      forall a | a in attempts :: a.Undamaged()
    }
  }

  function FrameCount(data: seq<Byte>): nat {
    (|data| + PAYLOAD_LEN - 1) / PAYLOAD_LEN
  }

  function Chunk(data: seq<Byte>, i: nat): (c: seq<Byte>)
    requires i < FrameCount(data)
    ensures 0 < |c| <= PAYLOAD_LEN
  {
    data[i * PAYLOAD_LEN..Min((i + 1) * PAYLOAD_LEN, |data|)]
  }

  function FrameAt(pipe: nat, data: seq<Byte>, i: nat, magic: nat, crc: Checksum): (f: Frame)
    requires i < FrameCount(data)
  {
    Frame(OUI, pipe, crc(Chunk(data, i)), i % 0x100, |data| % 0x1_0000, magic, Chunk(data, i))
  }

  /** The retry loop for one frame. */
  function SendFrame(p: Pipe, f: Frame, attempts: seq<Attempt>, crc: Checksum): (r: (Pipe, bool))
    decreases |attempts|
  {
    if attempts == [] || attempts[0].Error? then (p, false)
    else
      var a := attempts[0];
      var p := if a.arrival == Nothing then p else Accept(p, Arrived(f, a.arrival), crc);
      if a.acked then (p, true) else SendFrame(p, f, attempts[1..], crc)
  }

  /** mespnow_write from frame i on. */
  function SendMessage(p: Pipe, pipe: nat, data: seq<Byte>, i: nat, air: seq<Transmission>, crc: Checksum): (r: (Pipe, bool))
    requires |air| == FrameCount(data)
    decreases FrameCount(data) - i
  {
    if i >= FrameCount(data) then (p, true)
    else
      var (q, ok) := SendFrame(p, FrameAt(pipe, data, i, air[i].magic, crc), air[i].attempts, crc);
      if ok then SendMessage(q, pipe, data, i + 1, air, crc) else (q, false)
  }

  // ---------- reading a message ----------

  /** Where mespnow_read is: not called, in its first loop with a buffer of `size` bytes, or in
      its second loop. */
  datatype Reader = Away | Waiting(size: nat) | Collecting(expected: nat, total: nat, buf: seq<Byte>)

  datatype ReadResult = Timeout | Fail | Done(data: seq<Byte>)

  /** The head of the second loop: the message is complete or the next frame is awaited. */
  function Next(expected: nat, total: nat, buf: seq<Byte>): (r: (Reader, Option<ReadResult>)) {
    if |buf| >= total then (Away, Some(Done(buf))) else (Collecting(expected, total, buf), None)
  }

  /** The reader takes a frame from the queue, and perhaps returns. */
  function TakeFrame(rd: Reader, f: Frame): (r: (Reader, Option<ReadResult>))
    requires rd != Away
  {
    match rd
    case Waiting(size) =>
      if f.seqNo == 0 && size > f.totalSize then Next(1, f.totalSize, f.payload) else (rd, None)
    case Collecting(expected, total, buf) =>
      if f.seqNo != expected then (Away, Some(Fail)) else Next(expected + 1, total, buf + f.payload)
  }

  /** In the second loop only number and payload of a frame count; the size is that of the first one. */
  lemma OnlyNumberAndPayload(expected: nat, total: nat, buf: seq<Byte>, f: Frame, g: Frame)
    requires f.seqNo == g.seqNo && f.payload == g.payload
    ensures TakeFrame(Collecting(expected, total, buf), f) == TakeFrame(Collecting(expected, total, buf), g)
  {
  }

  /** Whatever the message, each field of the header fits its width. */
  lemma HeaderFits(pipe: nat, data: seq<Byte>, i: nat, magic: nat, crc: Checksum)
    requires i < FrameCount(data)
    ensures var f := FrameAt(pipe, data, i, magic, crc);
            && f.seqNo < 0x100 && f.totalSize < 0x1_0000 && |f.payload| < 0x100
            && f.pipe == pipe && f.oui == OUI && f.magic == magic && f.crc == crc(f.payload)
  {
  }

  /** A call of mespnow_read at `rd`. Before each wait ends the frames arrivals[0] come in; when
      nothing is queued then, the wait times out. */
  function ReadOn(p: Pipe, rd: Reader, arrivals: seq<seq<Frame>>, crc: Checksum): (r: (ReadResult, Pipe))
    requires rd != Away
    decreases |arrivals|, |p.queue|
  {
    var (p, later) := if arrivals == [] then (p, []) else (AcceptAll(p, arrivals[0], crc), arrivals[1..]);
    if p.queue == [] then (Timeout, p)
    else
      var (rd, result) := TakeFrame(rd, p.queue[0]);
      var p := p.(queue := p.queue[1..]);
      if result.Some? then (result.value, p) else ReadOn(p, rd, later, crc)
  }

  function AcceptAll(p: Pipe, fs: seq<Frame>, crc: Checksum): (r: Pipe)
    decreases |fs|
  {
    if fs == [] then p else AcceptAll(Accept(p, fs[0], crc), fs[1..], crc)
  }

  /** A call when nothing more arrives: the result and what is left of the queue. */
  function ReadRest(rd: Reader, q: seq<Frame>): (r: (ReadResult, seq<Frame>))
    requires rd != Away
    decreases |q|
  {
    if q == [] then (Timeout, [])
    else
      var (rd, result) := TakeFrame(rd, q[0]);
      if result.Some? then (result.value, q[1..]) else ReadRest(rd, q[1..])
  }

  lemma {:induction false} NothingArrives(p: Pipe, rd: Reader, crc: Checksum)
    requires rd != Away
    ensures ReadOn(p, rd, [], crc) ==
            (ReadRest(rd, p.queue).0, p.(queue := ReadRest(rd, p.queue).1))
    decreases |p.queue|
  {
    if p.queue != [] {
      var (rd', result) := TakeFrame(rd, p.queue[0]);
      if result.None? {
        NothingArrives(p.(queue := p.queue[1..]), rd', crc);
      }
    }
  }

  // ---------- one frame gets through at most once ----------

  /** Whatever arrives, a frame with a new magic is queued once or not at all. */
  lemma {:induction false} FrameAtMostOnce(p: Pipe, f: Frame, attempts: seq<Attempt>, crc: Checksum)
    requires p.lastMagic != f.magic && forall a | a in attempts :: a.Valid(crc)
    ensures var q := SendFrame(p, f, attempts, crc).0;
            q.capacity == p.capacity && (q.queue == p.queue || q.queue == p.queue + [f])
    decreases |attempts|
  {
    if attempts != [] && attempts[0].Attempt? {
      assert attempts[0].Valid(crc);
      if attempts[0].arrival == Nothing {
        FrameAtMostOnce(p, f, attempts[1..], crc);
      } else {
        DuplicatesDropped(Accept(p, Arrived(f, attempts[0].arrival), crc), f, attempts[1..], crc);
      }
    }
  }

  /** Without damaged copies and with room in the queue, it has been queued if the write goes on. */
  lemma {:induction false} FrameOnce(p: Pipe, f: Frame, attempts: seq<Attempt>, crc: Checksum)
    requires f.crc == crc(f.payload) && |p.queue| < p.capacity
    requires p.lastMagic != f.magic && forall a | a in attempts :: a.Valid(crc) && a.Undamaged()
    ensures var (q, ok) := SendFrame(p, f, attempts, crc);
            (q == p && !ok) || q == p.(lastMagic := f.magic, queue := p.queue + [f])
    decreases |attempts|
  {
    if attempts != [] && attempts[0].Attempt? {
      assert attempts[0].Valid(crc) && attempts[0].Undamaged();
      if attempts[0].arrival == Nothing {
        FrameOnce(p, f, attempts[1..], crc);
      } else {
        DuplicatesDropped(Accept(p, f, crc), f, attempts[1..], crc);
      }
    }
  }

  /** The retries end with the first attempt that fails at once or is acknowledged. */
  lemma {:induction false} RetriesEnd(p: Pipe, f: Frame, before: seq<Attempt>, last: Attempt, behind: seq<Attempt>, crc: Checksum)
    requires forall a | a in before :: a.Attempt? && !a.acked
    requires last.Error? || last.acked
    ensures SendFrame(p, f, before + [last] + behind, crc) == SendFrame(p, f, before + [last], crc)
    ensures SendFrame(p, f, before + [last], crc).1 <==> last.Attempt?
    decreases |before|
  {
    var all := before + [last] + behind;
    if before != [] {
      assert all[0] == before[0] && all[1..] == before[1..] + [last] + behind;
      assert (before + [last])[0] == before[0] && (before + [last])[1..] == before[1..] + [last];
      assert before[0] in before;
      var a := before[0];
      RetriesEnd(if a.arrival == Nothing then p else Accept(p, Arrived(f, a.arrival), crc), f, before[1..], last, behind, crc);
    } else {
      assert all[0] == last && (before + [last])[0] == last;
    }
  }

  /** Without an acknowledgement the frame counts as not sent, and every attempt takes place. */
  lemma {:induction false} RetriesRunOut(p: Pipe, f: Frame, attempts: seq<Attempt>, more: seq<Attempt>, crc: Checksum)
    requires forall a | a in attempts :: a.Attempt? && !a.acked
    ensures !SendFrame(p, f, attempts, crc).1
    ensures SendFrame(p, f, attempts + more, crc) == SendFrame(SendFrame(p, f, attempts, crc).0, f, more, crc)
    decreases |attempts|
  {
    if attempts == [] {
      assert attempts + more == more;
    } else {
      assert (attempts + more)[0] == attempts[0] && (attempts + more)[1..] == attempts[1..] + more;
      assert attempts[0] in attempts;
      var a := attempts[0];
      RetriesRunOut(if a.arrival == Nothing then p else Accept(p, Arrived(f, a.arrival), crc), f, attempts[1..], more, crc);
    }
  }

  lemma {:induction false} DuplicatesDropped(p: Pipe, f: Frame, attempts: seq<Attempt>, crc: Checksum)
    requires p.lastMagic == f.magic
    ensures SendFrame(p, f, attempts, crc).0 == p
    decreases |attempts|
  {
    if attempts != [] && attempts[0].Attempt? {
      DuplicatesDropped(p, f, attempts[1..], crc);
    }
  }

  /** A copy that arrives damaged still marks the magic as seen: every intact retry is then
      dropped, although it is acknowledged. */
  lemma DamagedCopyBlocksRetries(p: Pipe, f: Frame, damaged: Frame, attempts: seq<Attempt>, crc: Checksum)
    requires p.lastMagic != f.magic && damaged.magic == f.magic && damaged.crc != crc(damaged.payload)
    ensures SendFrame(Accept(p, damaged, crc), f, attempts, crc).0.queue == p.queue
  {
    DuplicatesDropped(Accept(p, damaged, crc), f, attempts, crc);
  }

  // ---------- a message reaches the queue as a prefix of its frames ----------

  /** Frames k..n of a message, as sent with the given magics. */
  function Frames(pipe: nat, data: seq<Byte>, from: nat, to: nat, air: seq<Transmission>, crc: Checksum): (s: seq<Frame>)
    requires from <= to <= FrameCount(data) <= |air|
    ensures |s| == to - from
  {
    seq(to - from, i requires 0 <= i < to - from => FrameAt(pipe, data, from + i, air[from + i].magic, crc))
  }

  /** The magic of every frame differs from that of its predecessor and the first one from the
      last that the receiver has seen. */
  ghost predicate FreshMagics(lastMagic: nat, air: seq<Transmission>, from: nat) {
    && (from < |air| ==> air[from].magic != lastMagic)
    && forall j | from < j < |air| :: air[j].magic != air[j - 1].magic
  }

  /** Delivery: the receiver's queue grows by the first k frames, each once and in order, and
      by all of them if the write returns MDF_OK. */
  lemma {:induction false} MessageDelivered(p: Pipe, pipe: nat, data: seq<Byte>, i: nat, air: seq<Transmission>, crc: Checksum)
      returns (k: nat)
    requires |air| == FrameCount(data) && i <= FrameCount(data)
    requires |p.queue| + FrameCount(data) - i <= p.capacity
    requires FreshMagics(p.lastMagic, air, i)
    requires forall j | i <= j < |air| :: air[j].Valid(crc) && air[j].Undamaged()
    ensures i <= k <= FrameCount(data)
    ensures var (q, ok) := SendMessage(p, pipe, data, i, air, crc);
            && q.queue == p.queue + Frames(pipe, data, i, k, air, crc)
            && (ok ==> k == FrameCount(data))
    decreases FrameCount(data) - i
  {
    if i == FrameCount(data) {
      k := i;
      assert Frames(pipe, data, i, k, air, crc) == [];
    } else {
      var f := FrameAt(pipe, data, i, air[i].magic, crc);
      var (q, ok) := SendFrame(p, f, air[i].attempts, crc);
      assert air[i].Valid(crc) && air[i].Undamaged() && air[i].magic != p.lastMagic;
      FrameOnce(p, f, air[i].attempts, crc);
      if ok {
        k := MessageDelivered(q, pipe, data, i + 1, air, crc);
        assert Frames(pipe, data, i, k, air, crc) == [f] + Frames(pipe, data, i + 1, k, air, crc);
      } else if q == p {
        k := i;
        assert Frames(pipe, data, i, k, air, crc) == [];
      } else {
        k := i + 1;
        assert Frames(pipe, data, i, k, air, crc) == [f];
      }
    }
  }
}
