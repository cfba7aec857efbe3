/** How far ESP-NOW pipes carry: how long a message may be over a perfect channel, and which
    messages survive when acknowledged frames are not queued. */
module EspnowLimits {
  import opened Prelude
  import opened Espnow
  import opened EspnowDelivery

  // ---------- how long a message may be ----------

  /** The second loop over the remaining frames of a whole message. */
  lemma {:induction false} ReadWhole(p: Part, ps: seq<Part>, e: nat)
    requires p.Valid() && p.Whole() && 0 < e < FrameCount(p.data)
    ensures ReadRest(Collecting(e, |p.data|, Prefix(p.data, e)), p.frames[e..] + Flatten(ps)) == (Done(p.data), Flatten(ps))
    decreases FrameCount(p.data) - e
  {
    TakeMore(p, ps, e);
    if e + 1 < FrameCount(p.data) {
      ReadWhole(p, ps, e + 1);
    }
  }

  /** A message all of whose frames are queued is read by one call, which leaves the rest alone. */
  lemma WholeIsRead(p: Part, ps: seq<Part>, size: nat)
    requires p.Valid() && p.Whole() && size > |p.data|
    ensures ReadRest(Waiting(size), p.frames + Flatten(ps)) == (Done(p.data), Flatten(ps))
  {
    TakeFirst(p, ps, size);
    if FrameCount(p.data) > 1 {
      ReadWhole(p, ps, 1);
    }
  }

  /** Over a perfect channel a message comes back exactly if it has at most 256 frames: the
      sequence number has 8 bits, and beyond 65535 bytes the total size is cut off as well. */
  lemma RoundTripIff(number: nat, data: seq<Byte>, air: seq<Transmission>, crc: Checksum, size: nat)
    requires 0 < |data| < size && |air| == FrameCount(data)
    ensures ReadRest(Waiting(size), Frames(number, data, 0, FrameCount(data), air, crc)).0 == Done(data)
            <==> |data| <= MESSAGE_MAX
  {
    var fs := Frames(number, data, 0, FrameCount(data), air, crc);
    if |data| <= MESSAGE_MAX {
      var p := Part(data, fs);
      assert forall j | 0 <= j < |fs| :: IsFrame(fs[j], data, j);
      WholeIsRead(p, [], size);
      assert fs + Flatten([]) == fs;
    } else {
      assert fs[1..] == Frames(number, data, 1, FrameCount(data), air, crc);
      PrefixGrows(data, 0);
      assert Prefix(data, 1) == fs[0].payload;
      if |Prefix(data, 1)| < |data| % 0x1_0000 {
        TooLong(number, data, air, crc, 1);
      }
    }
  }

  lemma {:induction false} TooLong(number: nat, data: seq<Byte>, air: seq<Transmission>, crc: Checksum, j: nat)
    requires |data| > MESSAGE_MAX && |air| == FrameCount(data) && 0 < j <= FRAMES_MAX
    ensures var r := ReadRest(Collecting(j, |data| % 0x1_0000, Prefix(data, j)),
                              Frames(number, data, j, FrameCount(data), air, crc)).0;
            r.Done? ==> |r.data| < |data|
    decreases FRAMES_MAX - j
  {
    var fs := Frames(number, data, j, FrameCount(data), air, crc);
    assert fs[0] == FrameAt(number, data, j, air[j].magic, crc);
    if j < FRAMES_MAX {
      PrefixGrows(data, j);
      assert fs[1..] == Frames(number, data, j + 1, FrameCount(data), air, crc);
      TooLong(number, data, air, crc, j + 1);
    }
  }

  // ---------- single steps ----------

  const ACKED := Attempt(Intact, true)

  /** The frame arrives and is acknowledged at once. */
  function Clean(l: Link): Event {
    Fragment(Transmission(l.pipe.lastMagic + 1, [ACKED]))
  }

  /** A damaged copy arrives first; the retry is intact and acknowledged. */
  function Spoilt(l: Link, env: Env): Event {
    Fragment(Transmission(l.pipe.lastMagic + 1, [Attempt(Damaged(env.crc([]) + 1, []), false), ACKED]))
  }

  ghost predicate MidMessage(l: Link) {
    l.sending && l.msgs != [] && l.next < FrameCount(Current(l))
  }

  function NextFrame(l: Link, env: Env): Frame
    requires l.msgs != [] && l.next < FrameCount(Current(l))
  {
    FrameAt(env.number, Current(l), l.next, l.pipe.lastMagic + 1, env.crc)
  }

  /** The sender goes on and the queue holds q. */
  function Sent(l: Link, q: seq<Frame>): Link
    requires l.msgs != []
  {
    l.(pipe := Pipe(l.pipe.lastMagic + 1, q, l.pipe.capacity), next := l.next + 1,
       sending := l.next + 1 < FrameCount(Current(l)))
  }

  lemma CleanStep(l: Link, env: Env)
    requires MidMessage(l) && (env.room ==> |l.pipe.queue| < l.pipe.capacity)
    ensures Possible(l, Clean(l), env)
    ensures Apply(l, Clean(l), env) ==
            Sent(l, if |l.pipe.queue| < l.pipe.capacity then l.pipe.queue + [NextFrame(l, env)] else l.pipe.queue)
  {
    var f := NextFrame(l, env);
    assert [ACKED][0] == ACKED;
    assert SendFrame(l.pipe, f, [ACKED], env.crc) == (Accept(l.pipe, f, env.crc), true);
  }

  lemma SpoiltStep(l: Link, env: Env)
    requires MidMessage(l) && !env.intact && (env.room ==> |l.pipe.queue| < l.pipe.capacity)
    ensures Possible(l, Spoilt(l, env), env)
    ensures Apply(l, Spoilt(l, env), env) == Sent(l, l.pipe.queue)
  {
    var f := NextFrame(l, env);
    var bad := Attempt(Damaged(env.crc([]) + 1, []), false);
    var attempts := [bad, ACKED];
    assert attempts[0] == bad && attempts[1..] == [ACKED];
    var p := Accept(l.pipe, Arrived(f, bad.arrival), env.crc);
    assert p == l.pipe.(lastMagic := f.magic);
    assert SendFrame(p, f, [ACKED], env.crc) == (p, true);
    assert SendFrame(l.pipe, f, attempts, env.crc) == (p, true);
  }

  lemma BeginStep(l: Link, data: seq<Byte>, env: Env)
    requires !l.sending && 0 < |data| <= env.limit
    ensures Possible(l, Begin(data), env)
    ensures var r := Apply(l, Begin(data), env);
            r == l.(msgs := l.msgs + [data], sending := true, next := 0) && MidMessage(r) && Current(r) == data
  {
  }

  lemma {:induction false} RunConcat(l: Link, a: seq<Event>, b: seq<Event>, env: Env)
    requires IsRun(l, a, env) && IsRun(After(l, a, env), b, env)
    ensures IsRun(l, a + b, env) && After(l, a + b, env) == After(After(l, a, env), b, env)
    decreases |a|
  {
    if a == [] {
      assert a + b == b;
    } else {
      assert (a + b)[0] == a[0] && (a + b)[1..] == a[1..] + b;
      RunConcat(Apply(l, a[0], env), a[1..], b, env);
    }
  }

  /** One more event at the end of a run. */
  lemma RunMore(l: Link, a: seq<Event>, e: Event, env: Env)
    requires IsRun(l, a, env) && Possible(After(l, a, env), e, env)
    ensures IsRun(l, a + [e], env) && After(l, a + [e], env) == Apply(After(l, a, env), e, env)
  {
    var m := After(l, a, env);
    assert [e][1..] == [] && IsRun(Apply(m, e, env), [], env);
    assert IsRun(m, [e], env) && After(m, [e], env) == Apply(m, e, env);
    RunConcat(l, a, [e], env);
  }

  // ---------- two messages of two frames ----------

  const ONE := PAYLOAD_LEN + 1

  function Zeros(n: nat): seq<Byte> {
    seq(n, _ => 0)
  }

  function Ones(n: nat): seq<Byte> {
    seq(n, _ => 1)
  }

  /** Half of each message. */
  function Mixture(): seq<Byte> {
    Zeros(PAYLOAD_LEN) + Ones(1)
  }

  lemma TwoFrames()
    ensures FrameCount(Zeros(ONE)) == 2 && FrameCount(Ones(ONE)) == 2
    ensures Chunk(Zeros(ONE), 0) == Zeros(PAYLOAD_LEN) && Chunk(Ones(ONE), 1) == Ones(1)
  {
  }

  lemma MixtureIsNew(d: seq<Byte>)
    requires d == Zeros(ONE) || d == Ones(ONE) || d == Zeros(1)
    ensures Mixture() != d
  {
    assert Mixture()[0] == 0 && Mixture()[PAYLOAD_LEN] == 1 && |Mixture()| == ONE;
    assert |d| == ONE ==> d[0] == d[PAYLOAD_LEN];
  }

  /** Nothing but the messages used here has been written. */
  ghost predicate Known(l: Link) {
    forall i | 0 <= i < |l.msgs| :: l.msgs[i] == Zeros(ONE) || l.msgs[i] == Ones(ONE) || l.msgs[i] == Zeros(1)
  }

  /** The reader has the first frame of the one message, the second frame of the other is next. */
  ghost predicate AboutToMix(l: Link) {
    && l.sending && l.next == 1 && l.msgs != [] && Current(l) == Ones(ONE) && Known(l)
    && l.reader == Collecting(1, ONE, Zeros(PAYLOAD_LEN)) && l.pipe.queue == [] && 0 < l.pipe.capacity
  }

  lemma {:induction false} NotSubseq(a: seq<seq<Byte>>, b: seq<seq<Byte>>, x: seq<Byte>)
    requires a != [] && a[|a| - 1] == x && x !in b
    ensures !IsSubseq(a, b)
  {
    if b != [] {
      assert b[|b| - 1] in b;
      NotSubseq(a, b[..|b| - 1], x);
    }
  }

  lemma Mixes(l: Link, env: Env) returns (events: seq<Event>)
    requires AboutToMix(l)
    ensures IsRun(l, events, env)
    ensures var r := After(l, events, env); !IsSubseq(r.got, r.msgs)
  {
    TwoFrames();
    CleanStep(l, env);
    var m := Apply(l, Clean(l), env);
    RunMore(l, [], Clean(l), env);
    var f := NextFrame(l, env);
    assert m.pipe.queue == [f];
    assert TakeFrame(l.reader, f) == (Away, Some(Done(Mixture())));
    RunMore(l, [] + [Clean(l)], Take, env);
    events := [] + [Clean(l)] + [Take];
    var r := After(l, events, env);
    assert r.got == l.got + [Mixture()] && r.msgs == l.msgs;
    forall d | d in r.msgs ensures d != Mixture() {
      MixtureIsNew(d);
    }
    NotSubseq(r.got, r.msgs, Mixture());
  }

  // ---------- damaged copies ----------

  /** The reader takes the first frame of a message of two frames. */
  lemma TakesHalf(l: Link, f: Frame, env: Env)
    requires l.reader == Waiting(ONE + 1) && l.pipe.queue == [f]
    requires f.seqNo == 0 && f.totalSize == ONE && f.payload == Zeros(PAYLOAD_LEN)
    ensures Possible(l, Take, env)
    ensures Apply(l, Take, env) ==
            l.(pipe := l.pipe.(queue := []), reader := Collecting(1, ONE, Zeros(PAYLOAD_LEN)))
  {
    assert l.got + [] == l.got && [f][1..] == [];
  }

  /** Nothing is ever lost for lack of room here: two damaged copies are enough. */
  lemma DamageMixes(l: Link, env: Env) returns (events: seq<Event>)
    requires Fresh(l) && 0 < l.pipe.capacity && !env.intact && env.limit > PAYLOAD_LEN
    ensures IsRun(l, events, env) && AboutToMix(After(l, events, env))
  {
    TwoFrames();
    BeginStep(l, Zeros(ONE), env);
    var l1 := Apply(l, Begin(Zeros(ONE)), env);
    RunMore(l, [], Begin(Zeros(ONE)), env);
    CleanStep(l1, env);
    var l2 := Apply(l1, Clean(l1), env);
    RunMore(l, [] + [Begin(Zeros(ONE))], Clean(l1), env);
    var half := [] + [Begin(Zeros(ONE))] + [Clean(l1)];
    assert l2.pipe.queue == [NextFrame(l1, env)];
    RunMore(l, half, Call(ONE + 1), env);
    var l3 := Apply(l2, Call(ONE + 1), env);
    TakesHalf(l3, NextFrame(l1, env), env);
    RunMore(l, half + [Call(ONE + 1)], Take, env);
    events := half + [Call(ONE + 1)] + [Take];
    var l4 := After(l, events, env);
    var more := LoseTwo(l4, env);
    RunConcat(l, events, more, env);
    events := events + more;
  }

  /** The rest of the one message and the beginning of the other are damaged. */
  lemma LoseTwo(l: Link, env: Env) returns (events: seq<Event>)
    requires l.sending && l.next == 1 && l.msgs == [Zeros(ONE)] && !env.intact && env.limit > PAYLOAD_LEN
    requires l.reader == Collecting(1, ONE, Zeros(PAYLOAD_LEN)) && l.pipe.queue == [] && 0 < l.pipe.capacity
    ensures IsRun(l, events, env) && AboutToMix(After(l, events, env))
  {
    TwoFrames();
    SpoiltStep(l, env);
    RunMore(l, [], Spoilt(l, env), env);
    var l1 := Apply(l, Spoilt(l, env), env);
    BeginStep(l1, Ones(ONE), env);
    RunMore(l, [] + [Spoilt(l, env)], Begin(Ones(ONE)), env);
    var l2 := Apply(l1, Begin(Ones(ONE)), env);
    SpoiltStep(l2, env);
    RunMore(l, [] + [Spoilt(l, env)] + [Begin(Ones(ONE))], Spoilt(l2, env), env);
    events := [] + [Spoilt(l, env)] + [Begin(Ones(ONE))] + [Spoilt(l2, env)];
  }

  // ---------- a full queue ----------

  /** The only frame of the message of one byte. */
  ghost predicate IsDot(f: Frame) {
    f.seqNo == 0 && f.totalSize == 1 && f.payload == Zeros(1)
  }

  ghost predicate OnlyDots(q: seq<Frame>) {
    forall i | 0 <= i < |q| :: IsDot(q[i])
  }

  /** Nothing is under way and the queue holds k messages of one byte. */
  ghost predicate Filled(l: Link, k: nat, capacity: nat) {
    && !l.sending && l.reader == Away && OnlyDots(l.pipe.queue) && Known(l)
    && |l.pipe.queue| == k && l.pipe.capacity == capacity
  }

  lemma OneDot(l: Link, k: nat, capacity: nat, env: Env) returns (events: seq<Event>)
    requires Filled(l, k, capacity) && k < capacity && 0 < env.limit
    ensures IsRun(l, events, env) && Filled(After(l, events, env), k + 1, capacity)
  {
    assert FrameCount(Zeros(1)) == 1 && Chunk(Zeros(1), 0) == Zeros(1);
    BeginStep(l, Zeros(1), env);
    RunMore(l, [], Begin(Zeros(1)), env);
    var m := Apply(l, Begin(Zeros(1)), env);
    CleanStep(m, env);
    RunMore(l, [] + [Begin(Zeros(1))], Clean(m), env);
    events := [] + [Begin(Zeros(1))] + [Clean(m)];
  }

  lemma {:induction false} FillUp(l: Link, k: nat, capacity: nat, env: Env) returns (events: seq<Event>)
    requires Filled(l, k, capacity) && k < capacity && 0 < env.limit
    ensures IsRun(l, events, env) && Filled(After(l, events, env), capacity - 1, capacity)
    decreases capacity - k
  {
    if k == capacity - 1 {
      events := [];
    } else {
      events := OneDot(l, k, capacity, env);
      var more := FillUp(After(l, events, env), k + 1, capacity, env);
      RunConcat(l, events, more, env);
      events := events + more;
    }
  }

  lemma DotIsRead(l: Link, env: Env)
    requires l.reader == Away && l.pipe.queue != [] && IsDot(l.pipe.queue[0])
    ensures IsRun(l, [Call(2), Take], env)
    ensures After(l, [Call(2), Take], env) ==
            l.(pipe := l.pipe.(queue := l.pipe.queue[1..]), got := l.got + [Zeros(1)])
  {
    RunMore(l, [], Call(2), env);
    RunMore(l, [] + [Call(2)], Take, env);
    assert [] + [Call(2)] + [Take] == [Call(2), Take];
    assert TakeFrame(Waiting(2), l.pipe.queue[0]) == (Away, Some(Done(Zeros(1))));
  }

  /** The dots in front of the queue are read. */
  lemma {:induction false} DotsAreRead(l: Link, dots: seq<Frame>, tail: seq<Frame>, env: Env) returns (events: seq<Event>)
    requires l.reader == Away && OnlyDots(dots) && l.pipe.queue == dots + tail
    ensures IsRun(l, events, env)
    ensures var r := After(l, events, env);
            r == l.(pipe := l.pipe.(queue := tail), got := r.got)
    decreases |dots|
  {
    if dots == [] {
      events := [];
      assert l.pipe.queue == tail;
    } else {
      DotIsRead(l, env);
      var m := After(l, [Call(2), Take], env);
      assert m.pipe.queue == dots[1..] + tail;
      var more := DotsAreRead(m, dots[1..], tail, env);
      RunConcat(l, [Call(2), Take], more, env);
      events := [Call(2), Take] + more;
    }
  }

  /** Behind a queue that is full but for one frame, the first frame of the one message still
      fits; its second frame and the first frame of the other message do not. */
  lemma LoseTwoMore(l: Link, capacity: nat, env: Env) returns (events: seq<Event>, f: Frame)
    requires 0 < capacity && Filled(l, capacity - 1, capacity) && !env.room && env.limit > PAYLOAD_LEN
    ensures IsRun(l, events, env) && f.seqNo == 0 && f.totalSize == ONE && f.payload == Zeros(PAYLOAD_LEN)
    ensures var r := After(l, events, env);
            && r.sending && r.next == 1 && r.msgs != [] && Current(r) == Ones(ONE) && Known(r)
            && r.reader == Away && r.pipe.queue == l.pipe.queue + [f] && r.pipe.capacity == capacity
  {
    TwoFrames();
    BeginStep(l, Zeros(ONE), env);
    var l1 := Apply(l, Begin(Zeros(ONE)), env);
    RunMore(l, [], Begin(Zeros(ONE)), env);
    CleanStep(l1, env);
    f := NextFrame(l1, env);
    var l2 := Apply(l1, Clean(l1), env);
    RunMore(l, [] + [Begin(Zeros(ONE))], Clean(l1), env);
    events := [] + [Begin(Zeros(ONE))] + [Clean(l1)];
    var more := NothingFits(l2, env);
    RunConcat(l, events, more, env);
    events := events + more;
  }

  lemma NothingFits(l: Link, env: Env) returns (events: seq<Event>)
    requires l.sending && l.next == 1 && l.msgs != [] && Current(l) == Zeros(ONE) && Known(l)
    requires |l.pipe.queue| == l.pipe.capacity && !env.room && env.limit > PAYLOAD_LEN
    ensures IsRun(l, events, env)
    ensures var r := After(l, events, env);
            && r.sending && r.next == 1 && r.msgs == l.msgs + [Ones(ONE)] && Known(r)
            && r.reader == l.reader && r.pipe.queue == l.pipe.queue && r.pipe.capacity == l.pipe.capacity
  {
    TwoFrames();
    CleanStep(l, env);
    var l1 := Apply(l, Clean(l), env);
    RunMore(l, [], Clean(l), env);
    BeginStep(l1, Ones(ONE), env);
    var l2 := Apply(l1, Begin(Ones(ONE)), env);
    RunMore(l, [] + [Clean(l)], Begin(Ones(ONE)), env);
    CleanStep(l2, env);
    RunMore(l, [] + [Clean(l)] + [Begin(Ones(ONE))], Clean(l2), env);
    events := [] + [Clean(l)] + [Begin(Ones(ONE))] + [Clean(l2)];
  }

  /** No copy is damaged here: the queue runs full. */
  lemma OverflowMixes(l: Link, env: Env) returns (events: seq<Event>)
    requires Fresh(l) && 0 < l.pipe.capacity && !env.room && env.limit > PAYLOAD_LEN
    ensures IsRun(l, events, env) && AboutToMix(After(l, events, env))
  {
    var capacity := l.pipe.capacity;
    events := FillUp(l, 0, capacity, env);
    var l1 := After(l, events, env);
    var lose, f := LoseTwoMore(l1, capacity, env);
    RunConcat(l, events, lose, env);
    var l2 := After(l1, lose, env);
    events := events + lose;
    var read := DotsAreRead(l2, l1.pipe.queue, [f], env);
    RunConcat(l, events, read, env);
    var l3 := After(l2, read, env);
    events := events + read;
    RunMore(l, events, Call(ONE + 1), env);
    TakesHalf(Apply(l3, Call(ONE + 1), env), f, env);
    RunMore(l, events + [Call(ONE + 1)], Take, env);
    events := events + [Call(ONE + 1)] + [Take];
  }

  // ---------- which messages survive ----------

  /** Whatever happens on a pipe with this capacity, messages read are messages written, in order. */
  ghost predicate AllRunsSafe(env: Env, capacity: nat) {
    forall l: Link, events: seq<Event> | Fresh(l) && l.pipe.capacity == capacity && IsRun(l, events, env) ::
      IsSubseq(After(l, events, env).got, After(l, events, env).msgs)
  }

  /** If frames may be acknowledged without being queued, because copies are damaged or because
      the queue is full, pipes are safe for messages of a single frame and for no others, whatever
      the capacity; otherwise they are safe for all messages of up to 256 frames. */
  lemma SafeIff(env: Env, capacity: nat)
    requires 0 < capacity && 0 < env.limit <= MESSAGE_MAX
    ensures AllRunsSafe(env, capacity) <==> env.Strict() || env.limit <= PAYLOAD_LEN
  {
    if env.Strict() || env.limit <= PAYLOAD_LEN {
      forall l: Link, events: seq<Event> | Fresh(l) && l.pipe.capacity == capacity && IsRun(l, events, env)
        ensures IsSubseq(After(l, events, env).got, After(l, events, env).msgs)
      {
        RunsAreSafe(l, events, env);
      }
    } else {
      var l := Link(Pipe(0, [], capacity), [], false, 0, Away, []);
      var events := UnsafeRun(l, env);
    }
  }

  /** The failing run. */
  lemma UnsafeRun(l: Link, env: Env) returns (events: seq<Event>)
    requires Fresh(l) && 0 < l.pipe.capacity && !env.Strict() && env.limit > PAYLOAD_LEN
    ensures IsRun(l, events, env)
    ensures !IsSubseq(After(l, events, env).got, After(l, events, env).msgs)
  {
    if env.intact {
      events := OverflowMixes(l, env);
    } else {
      events := DamageMixes(l, env);
    }
    var more := Mixes(After(l, events, env), env);
    RunConcat(l, events, more, env);
    events := events + more;
  }
}
