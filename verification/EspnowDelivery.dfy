/** What a reader of an ESP-NOW pipe gets: whole messages, in the order in which they were
    written, none twice, whatever is lost on the way and whenever the reader gives up. Sender and
    reader take turns frame by frame. */
module EspnowDelivery {
  import opened Prelude
  import opened Espnow

  // ---------- subsequences ----------

  predicate IsSubseq<T(==)>(a: seq<T>, b: seq<T>) {
    if a == [] then true
    else if b == [] then false
    else (a[|a| - 1] == b[|b| - 1] && IsSubseq(a[..|a| - 1], b[..|b| - 1])) || IsSubseq(a, b[..|b| - 1])
  }

  /** The places in b of the elements of a. */
  ghost predicate Embeds<T>(places: seq<nat>, a: seq<T>, b: seq<T>) {
    && |places| == |a|
    && (forall i | 0 <= i < |a| :: places[i] < |b| && b[places[i]] == a[i])
    && forall i, j | 0 <= i < j < |a| :: places[i] < places[j]
  }

  lemma {:induction false} SubseqEmbeds<T>(a: seq<T>, b: seq<T>) returns (places: seq<nat>)
    requires IsSubseq(a, b)
    ensures Embeds(places, a, b)
    decreases |b|
  {
    if a == [] {
      places := [];
    } else if a[|a| - 1] == b[|b| - 1] && IsSubseq(a[..|a| - 1], b[..|b| - 1]) {
      var init := SubseqEmbeds(a[..|a| - 1], b[..|b| - 1]);
      places := init + [|b| - 1];
    } else {
      places := SubseqEmbeds(a, b[..|b| - 1]);
    }
  }

  lemma SubseqMore<T>(a: seq<T>, b: seq<T>, x: T)
    requires IsSubseq(a, b)
    ensures IsSubseq(a, b + [x])
    ensures IsSubseq(a + [x], b + [x])
  {
    assert (b + [x])[..|b|] == b && (a + [x])[..|a|] == a;
  }

  lemma {:induction false} DropMiddle<T>(a: seq<T>, b: seq<T>, c: seq<T>, m: seq<T>)
    requires IsSubseq(a + b + c, m)
    ensures IsSubseq(a + c, m)
    decreases |m|
  {
    var all := a + b + c;
    if a + c != [] && b != [] {
      var init := m[..|m| - 1];
      if IsSubseq(all, init) {
        DropMiddle(a, b, c, init);
      } else if c != [] {
        var c' := c[..|c| - 1];
        assert all[..|all| - 1] == a + b + c' && (a + c)[..|a + c| - 1] == a + c';
        DropMiddle(a, b, c', init);
      } else {
        var b' := b[..|b| - 1];
        assert all[..|all| - 1] == a + b' + [];
        assert a + c == a + [] == a;
        DropMiddle(a, b', [], init);
      }
    } else if b == [] {
      assert all == a + c;
    }
  }

  // ---------- the queue as a list of message prefixes ----------

  const FRAMES_MAX := 0x100

  /** f is frame j of the message, as far as the reader can tell. */
  ghost predicate IsFrame(f: Frame, data: seq<Byte>, j: nat) {
    && j < FrameCount(data)
    && f.seqNo == j % 0x100 && f.totalSize == |data| % 0x1_0000 && f.payload == Chunk(data, j)
  }

  /** The first frames of one message: at least one, perhaps all. */
  datatype Part = Part(data: seq<Byte>, frames: seq<Frame>) {
    ghost predicate Valid() {
      && FrameCount(data) <= FRAMES_MAX
      && 0 < |frames| <= FrameCount(data)
      && forall j | 0 <= j < |frames| :: IsFrame(frames[j], data, j)
    }

    predicate Whole() {
      |frames| == FrameCount(data)
    }
  }

  ghost predicate AllValid(ps: seq<Part>) {
    forall i | 0 <= i < |ps| :: ps[i].Valid()
  }

  function Flatten(ps: seq<Part>): seq<Frame> {
    if ps == [] then [] else ps[0].frames + Flatten(ps[1..])
  }

  lemma {:induction false} FlattenConcat(a: seq<Part>, b: seq<Part>)
    ensures Flatten(a + b) == Flatten(a) + Flatten(b)
  {
    if a == [] {
      assert a + b == b;
    } else {
      assert (a + b)[1..] == a[1..] + b;
      FlattenConcat(a[1..], b);
    }
  }

  function Datas(ps: seq<Part>): (s: seq<seq<Byte>>)
    ensures |s| == |ps|
  {
    seq(|ps|, i requires 0 <= i < |ps| => ps[i].data)
  }

  /** Frames whose beginning has been consumed. */
  ghost predicate Leftover(rest: seq<Frame>) {
    forall i | 0 <= i < |rest| :: rest[i].seqNo != 0
  }

  /** What has been read of a message after j frames. */
  function Prefix(data: seq<Byte>, j: nat): seq<Byte> {
    data[..Min(j * PAYLOAD_LEN, |data|)]
  }

  lemma PrefixGrows(data: seq<Byte>, j: nat)
    requires j < FrameCount(data)
    ensures Prefix(data, j) + Chunk(data, j) == Prefix(data, j + 1)
    ensures |Prefix(data, j + 1)| > |Prefix(data, j)|
    ensures |Prefix(data, j)| < |data|
  {
  }

  // ---------- one frame is taken from the queue ----------

  /** The queue holds the remains of a message that can no longer be read, followed by beginnings
      of messages; a reader in its second loop has consumed some frames of the first of these. */
  ghost predicate Holds(rd: Reader, q: seq<Frame>, rest: seq<Frame>, ps: seq<Part>) {
    && Leftover(rest) && AllValid(ps)
    && match rd
       case Collecting(e, total, buf) =>
         && rest == [] && ps != [] && 0 < e <= |ps[0].frames| && e < FrameCount(ps[0].data)
         && total == |ps[0].data| && buf == Prefix(ps[0].data, e)
         && q == ps[0].frames[e..] + Flatten(ps[1..])
       case _ => q == rest + Flatten(ps)
  }

  lemma TotalExact(data: seq<Byte>)
    requires FrameCount(data) <= FRAMES_MAX
    ensures |data| % 0x1_0000 == |data|
  {
  }

  /** With j frames received the message is complete iff these are all. */
  lemma NextIs(data: seq<Byte>, j: nat)
    requires 0 < j <= FrameCount(data)
    ensures Next(j, |data|, Prefix(data, j)) ==
            if j == FrameCount(data) then (Away, Some(Done(data))) else (Collecting(j, |data|, Prefix(data, j)), None)
  {
    if j < FrameCount(data) {
      PrefixGrows(data, j);
    } else {
      assert Prefix(data, j) == data;
    }
  }

  lemma LeftoverTail(p: Part)
    requires p.Valid()
    ensures Leftover(p.frames[1..])
  {
    forall j | 0 <= j < |p.frames| - 1 ensures p.frames[1..][j].seqNo != 0 {
      assert IsFrame(p.frames[j + 1], p.data, j + 1);
    }
  }

  /** The first frame of a message, in the first loop. */
  lemma TakeFirst(p: Part, ps: seq<Part>, size: nat)
    requires p.Valid()
    ensures var q := p.frames + Flatten(ps);
            && q != [] && q[1..] == p.frames[1..] + Flatten(ps)
            && TakeFrame(Waiting(size), q[0]) ==
               if size <= |p.data| then (Waiting(size), None)
               else if FrameCount(p.data) == 1 then (Away, Some(Done(p.data)))
               else (Collecting(1, |p.data|, Prefix(p.data, 1)), None)
  {
    assert IsFrame(p.frames[0], p.data, 0);
    TotalExact(p.data);
    NextIs(p.data, 1);
    PrefixGrows(p.data, 0);
    assert Prefix(p.data, 1) == p.frames[0].payload;
  }

  /** Frame e of a message, in the second loop. */
  lemma TakeMore(p: Part, ps: seq<Part>, e: nat)
    requires p.Valid() && 0 < e < |p.frames|
    ensures var q := p.frames[e..] + Flatten(ps);
            && q != [] && q[1..] == p.frames[e + 1..] + Flatten(ps)
            && TakeFrame(Collecting(e, |p.data|, Prefix(p.data, e)), q[0]) ==
               if e + 1 == FrameCount(p.data) then (Away, Some(Done(p.data)))
               else (Collecting(e + 1, |p.data|, Prefix(p.data, e + 1)), None)
  {
    assert IsFrame(p.frames[e], p.data, e);
    PrefixGrows(p.data, e);
    NextIs(p.data, e + 1);
  }

  /** The first frame of the next message where another frame was expected. */
  lemma TakeForeign(p: Part, ps: seq<Part>, e: nat, total: nat, buf: seq<Byte>)
    requires p.Valid() && 0 < e
    ensures var q := p.frames + Flatten(ps);
            && q != [] && q[1..] == p.frames[1..] + Flatten(ps)
            && TakeFrame(Collecting(e, total, buf), q[0]) == (Away, Some(Fail))
  {
    assert IsFrame(p.frames[0], p.data, 0);
  }

  /** Whatever the reader takes, it returns nothing but a message all of whose frames were there,
      and it passes over the messages before it. */
  lemma TakeMeaning(rd: Reader, q: seq<Frame>, rest: seq<Frame>, ps: seq<Part>) returns (rest': seq<Frame>, n: nat)
    requires Holds(rd, q, rest, ps) && rd != Away && q != []
    ensures n <= |ps|
    ensures var (rd', result) := TakeFrame(rd, q[0]);
            && Holds(rd', q[1..], rest', ps[n..])
            && (result.Some? && result.value.Done? ==> n > 0 && ps[n - 1].Whole() && result.value.data == ps[n - 1].data)
  {
    if rd.Collecting? {
      rest', n := TakeSecond(rd, q, ps);
    } else if rest != [] {
      assert q[0] == rest[0] && q[1..] == rest[1..] + Flatten(ps);
      rest', n := rest[1..], 0;
      assert ps[0..] == ps;
    } else {
      assert [] + Flatten(ps) == Flatten(ps);
      rest', n := TakeWaiting(rd.size, ps);
    }
  }

  lemma TakeWaiting(size: nat, ps: seq<Part>) returns (rest': seq<Frame>, n: nat)
    requires AllValid(ps) && Flatten(ps) != []
    ensures n <= |ps|
    ensures var (rd', result) := TakeFrame(Waiting(size), Flatten(ps)[0]);
            && Holds(rd', Flatten(ps)[1..], rest', ps[n..])
            && (result.Some? && result.value.Done? ==> n > 0 && ps[n - 1].Whole() && result.value.data == ps[n - 1].data)
  {
    var p := ps[0];
    assert p.Valid() && ps[0..] == ps;
    TakeFirst(p, ps[1..], size);
    LeftoverTail(p);
    if size <= |p.data| {
      rest', n := p.frames[1..], 1;
    } else {
      rest', n := [], if FrameCount(p.data) == 1 then 1 else 0;
    }
  }

  lemma TakeSecond(rd: Reader, q: seq<Frame>, ps: seq<Part>) returns (rest': seq<Frame>, n: nat)
    requires Holds(rd, q, [], ps) && rd.Collecting? && q != []
    ensures n <= |ps|
    ensures var (rd', result) := TakeFrame(rd, q[0]);
            && Holds(rd', q[1..], rest', ps[n..])
            && (result.Some? && result.value.Done? ==> n > 0 && ps[n - 1].Whole() && result.value.data == ps[n - 1].data)
  {
    var p, e := ps[0], rd.expected;
    if e < |p.frames| {
      TakeMore(p, ps[1..], e);
      rest', n := [], if e + 1 == FrameCount(p.data) then 1 else 0;
      assert ps[0..] == ps;
    } else {
      assert q == Flatten(ps[1..]);
      assert ps[1..] != [] && ps[1..][1..] == ps[2..];
      TakeForeign(ps[1], ps[2..], e, rd.total, rd.buf);
      LeftoverTail(ps[1]);
      rest', n := ps[1].frames[1..], 2;
    }
  }

  // ---------- runs of one sender and one reader ----------

  /** One pipe with its sender and its reader. `msgs` are the messages written so far, the last
      of which is still being sent if `sending`, from frame `next` on; `got` is what calls of
      mespnow_read have returned. */
  datatype Link = Link(pipe: Pipe, msgs: seq<seq<Byte>>, sending: bool, next: nat, reader: Reader, got: seq<seq<Byte>>)

  datatype Event =
    | Begin(data: seq<Byte>)
    | Fragment(tx: Transmission)
    | Call(size: nat)
    | Take
    | GiveUp

  const MESSAGE_MAX := FRAMES_MAX * PAYLOAD_LEN

  /** The pipe's number, the checksum, and what is assumed of a run: messages of at most `limit`
      bytes; if `room`, space in the queue for every frame; if `intact`, no damaged copies. */
  datatype Env = Env(number: nat, crc: Checksum, limit: nat, room: bool, intact: bool) {
    predicate Strict() {
      room && intact
    }
  }

  function Current(l: Link): seq<Byte>
    requires l.msgs != []
  {
    l.msgs[|l.msgs| - 1]
  }

  /** Besides, magics are fresh and only what has arrived is acknowledged. A reader that waits
      takes a frame if there is one and may give up if there is none. */
  ghost predicate Possible(l: Link, e: Event, env: Env) {
    match e
    case Begin(data) => !l.sending && 0 < |data| <= env.limit
    case Fragment(tx) =>
      && l.sending && l.msgs != [] && l.next < FrameCount(Current(l))
      && tx.Valid(env.crc) && tx.magic != l.pipe.lastMagic
      && (env.room ==> |l.pipe.queue| < l.pipe.capacity) && (env.intact ==> tx.Undamaged())
    case Call(_) => l.reader == Away
    case Take => l.reader != Away && l.pipe.queue != []
    case GiveUp => l.reader != Away && l.pipe.queue == []
  }

  ghost function Apply(l: Link, e: Event, env: Env): (r: Link)
    requires Possible(l, e, env)
  {
    match e
    case Begin(data) => l.(msgs := l.msgs + [data], sending := true, next := 0)
    case Fragment(tx) =>
      var (q, ok) := SendFrame(l.pipe, FrameAt(env.number, Current(l), l.next, tx.magic, env.crc), tx.attempts, env.crc);
      l.(pipe := q, next := l.next + 1, sending := ok && l.next + 1 < FrameCount(Current(l)))
    case Call(size) => l.(reader := Waiting(size))
    case Take =>
      var (rd, result) := TakeFrame(l.reader, l.pipe.queue[0]);
      l.(pipe := l.pipe.(queue := l.pipe.queue[1..]), reader := rd, got := l.got + Returned(result))
    case GiveUp => l.(reader := Away)
  }

  function Returned(result: Option<ReadResult>): seq<seq<Byte>> {
    if result.Some? && result.value.Done? then [result.value.data] else []
  }

  /** The events of the reader are what mespnow_read does at each wait: with the pipe as it is when
      the wait ends, the call times out or takes a frame, and then it returns or waits again. */
  lemma WaitIsEvent(l: Link, arrivals: seq<seq<Frame>>, env: Env)
    requires l.reader != Away
    ensures var (p, later) := if arrivals == [] then (l.pipe, []) else (AcceptAll(l.pipe, arrivals[0], env.crc), arrivals[1..]);
            var here := l.(pipe := p);
            var (result, left) := ReadOn(l.pipe, l.reader, arrivals, env.crc);
            if p.queue == [] then
              Possible(here, GiveUp, env) && (Timeout, Apply(here, GiveUp, env)) == (result, here.(pipe := left, reader := Away))
            else
              Possible(here, Take, env) &&
              var next := Apply(here, Take, env);
              if next.reader == Away then next == here.(pipe := left, reader := Away, got := l.got + Returned(Some(result)))
              else next.got == l.got && (result, left) == ReadOn(next.pipe, next.reader, later, env.crc)
  {
    assert l.got + [] == l.got;
  }

  /** The messages of which a frame may have been received already. */
  function Started(l: Link): seq<seq<Byte>> {
    if l.sending && l.next == 0 && l.msgs != [] then l.msgs[..|l.msgs| - 1] else l.msgs
  }

  ghost predicate SendingOk(l: Link, env: Env) {
    l.sending ==> l.msgs != [] && 0 < |Current(l)| <= env.limit && l.next < FrameCount(Current(l))
  }

  /** A message that is being sent is the last one in the queue, if the reader has not passed
      over its beginning. */
  ghost predicate SentSoFar(l: Link, ps: seq<Part>) {
    l.sending && l.next > 0 && ps != [] && l.msgs != [] ==>
      ps[|ps| - 1].data == Current(l) && |ps[|ps| - 1].frames| == l.next
  }

  /** What has been read, followed by what is queued, is in the order in which it was written. */
  ghost predicate LinkInv(l: Link, rest: seq<Frame>, ps: seq<Part>, env: Env) {
    && Holds(l.reader, l.pipe.queue, rest, ps)
    && IsSubseq(l.got + Datas(ps), Started(l))
    && SendingOk(l, env) && SentSoFar(l, ps)
  }

  lemma BeginInv(l: Link, data: seq<Byte>, rest: seq<Frame>, ps: seq<Part>, env: Env)
    requires LinkInv(l, rest, ps, env) && Possible(l, Begin(data), env)
    ensures LinkInv(Apply(l, Begin(data), env), rest, ps, env)
  {
    assert (l.msgs + [data])[..|l.msgs|] == l.msgs;
  }

  lemma LastStays(ps: seq<Part>, n: nat)
    requires n <= |ps|
    ensures ps[n..] != [] ==> ps[n..][|ps[n..]| - 1] == ps[|ps| - 1]
  {
  }

  lemma TakeInv(l: Link, rest: seq<Frame>, ps: seq<Part>, env: Env) returns (rest': seq<Frame>, ps': seq<Part>)
    requires LinkInv(l, rest, ps, env) && Possible(l, Take, env)
    ensures LinkInv(Apply(l, Take, env), rest', ps', env)
  {
    var n;
    rest', n := TakeMeaning(l.reader, l.pipe.queue, rest, ps);
    ps' := ps[n..];
    var result := TakeFrame(l.reader, l.pipe.queue[0]).1;
    TakenInOrder(l.got, result, ps, n, Started(l));
    LastStays(ps, n);
  }

  /** Taking the message before ps[n..] keeps the order. */
  lemma TakenInOrder(got: seq<seq<Byte>>, result: Option<ReadResult>, ps: seq<Part>, n: nat, msgs: seq<seq<Byte>>)
    requires n <= |ps| && IsSubseq(got + Datas(ps), msgs)
    requires result.Some? && result.value.Done? ==> n > 0 && result.value.data == ps[n - 1].data
    ensures IsSubseq(got + Returned(result) + Datas(ps[n..]), msgs)
  {
    if result.Some? && result.value.Done? {
      SkipParts(got, ps, n - 1, msgs);
      assert Datas(ps[n - 1..]) == Returned(result) + Datas(ps[n..]);
      assert got + (Returned(result) + Datas(ps[n..])) == got + Returned(result) + Datas(ps[n..]);
    } else {
      SkipParts(got, ps, n, msgs);
      assert got + [] == got;
    }
  }

  lemma SkipParts(got: seq<seq<Byte>>, ps: seq<Part>, n: nat, msgs: seq<seq<Byte>>)
    requires n <= |ps| && IsSubseq(got + Datas(ps), msgs)
    ensures IsSubseq(got + Datas(ps[n..]), msgs)
  {
    assert got + Datas(ps) == got + Datas(ps[..n]) + Datas(ps[n..]);
    DropMiddle(got, Datas(ps[..n]), Datas(ps[n..]), msgs);
  }

  lemma GiveUpInv(l: Link, rest: seq<Frame>, ps: seq<Part>, env: Env) returns (ps': seq<Part>)
    requires LinkInv(l, rest, ps, env) && Possible(l, GiveUp, env)
    ensures LinkInv(Apply(l, GiveUp, env), [], ps', env)
  {
    if l.reader.Collecting? {
      ps' := ps[1..];
      SkipParts(l.got, ps, 1, Started(l));
      LastStays(ps, 1);
      assert [] + Flatten(ps') == [];
    } else {
      ps' := ps;
      assert rest == [];
    }
  }

  /** A frame that has arrived is the first of a new part, extends the last part, or belongs
      to a message whose beginning is gone. */
  lemma ArrivalInv(l: Link, f: Frame, rest: seq<Frame>, ps: seq<Part>, env: Env) returns (rest': seq<Frame>, ps': seq<Part>)
    requires LinkInv(l, rest, ps, env) && l.sending && env.limit <= MESSAGE_MAX && IsFrame(f, Current(l), l.next)
    ensures Holds(l.reader, l.pipe.queue + [f], rest', ps')
    ensures IsSubseq(l.got + Datas(ps'), l.msgs)
    ensures ps' != [] ==> ps'[|ps'| - 1].data == Current(l) && |ps'[|ps'| - 1].frames| == l.next + 1
  {
    if l.next == 0 {
      rest' := rest;
      ps' := NewPart(l, f, rest, ps, env);
    } else if ps != [] {
      rest' := rest;
      ps' := ExtendPart(ps, f);
      QueueExtended(l.reader, l.pipe.queue, rest, ps, ps', f);
    } else {
      rest', ps' := rest + [f], [];
      assert f.seqNo != 0;
      assert rest + [] == rest && rest' + [] == rest';
    }
  }

  lemma NewPart(l: Link, f: Frame, rest: seq<Frame>, ps: seq<Part>, env: Env) returns (ps': seq<Part>)
    requires LinkInv(l, rest, ps, env) && l.sending && l.next == 0 && env.limit <= MESSAGE_MAX && IsFrame(f, Current(l), 0)
    ensures Holds(l.reader, l.pipe.queue + [f], rest, ps')
    ensures IsSubseq(l.got + Datas(ps'), l.msgs)
    ensures ps' != [] && ps'[|ps'| - 1] == Part(Current(l), [f])
  {
    var data := Current(l);
    var p := Part(data, [f]);
    ps' := ps + [p];
    QueueGrows(l.reader, l.pipe.queue, rest, ps, p, f);
    SubseqMore(l.got + Datas(ps), Started(l), data);
    assert l.got + Datas(ps') == l.got + Datas(ps) + [data];
    assert Started(l) + [data] == l.msgs;
  }

  lemma QueueGrows(rd: Reader, q: seq<Frame>, rest: seq<Frame>, ps: seq<Part>, p: Part, f: Frame)
    requires Holds(rd, q, rest, ps) && p.Valid() && p.frames == [f]
    ensures Holds(rd, q + [f], rest, ps + [p])
  {
    FlattenLast(ps, p);
    if rd.Collecting? {
      FlattenLast(ps[1..], p);
      assert (ps + [p])[1..] == ps[1..] + [p];
      assert q + [f] == ps[0].frames[rd.expected..] + (Flatten(ps[1..]) + [f]);
    } else {
      assert rest + (Flatten(ps) + [f]) == q + [f];
    }
  }

  lemma QueueExtended(rd: Reader, q: seq<Frame>, rest: seq<Frame>, ps: seq<Part>, ps': seq<Part>, f: Frame)
    requires Holds(rd, q, rest, ps) && ps != [] && AllValid(ps') && Flatten(ps') == Flatten(ps) + [f]
    requires ps' == ps[..|ps| - 1] + [Part(ps[|ps| - 1].data, ps[|ps| - 1].frames + [f])]
    ensures Holds(rd, q + [f], rest, ps')
  {
    if rd.Collecting? {
      if |ps| == 1 {
        LastExtended(rd, q, rest, ps, ps', f);
      } else {
        assert ps'[0] == ps[0];
        Cancel(ps[0].frames, Flatten(ps'[1..]), Flatten(ps[1..]) + [f]);
        assert q + [f] == ps[0].frames[rd.expected..] + (Flatten(ps[1..]) + [f]);
      }
    } else {
      assert rest + (Flatten(ps) + [f]) == q + [f];
    }
  }

  lemma LastExtended(rd: Reader, q: seq<Frame>, rest: seq<Frame>, ps: seq<Part>, ps': seq<Part>, f: Frame)
    requires Holds(rd, q, rest, ps) && rd.Collecting? && |ps| == 1 && AllValid(ps')
    requires ps' == ps[..|ps| - 1] + [Part(ps[|ps| - 1].data, ps[|ps| - 1].frames + [f])]
    ensures Holds(rd, q + [f], rest, ps')
  {
    assert ps'[1..] == [] && ps[1..] == [];
    assert (ps[0].frames + [f])[rd.expected..] == ps[0].frames[rd.expected..] + [f];
    assert q == ps[0].frames[rd.expected..];
  }

  lemma Cancel(a: seq<Frame>, x: seq<Frame>, y: seq<Frame>)
    requires a + x == a + y
    ensures x == y
  {
    assert (a + x)[|a|..] == x && (a + y)[|a|..] == y;
  }

  lemma ExtendPart(ps: seq<Part>, f: Frame) returns (ps': seq<Part>)
    requires AllValid(ps) && ps != [] && IsFrame(f, ps[|ps| - 1].data, |ps[|ps| - 1].frames|)
    ensures AllValid(ps') && Flatten(ps') == Flatten(ps) + [f] && Datas(ps') == Datas(ps)
    ensures ps' == ps[..|ps| - 1] + [Part(ps[|ps| - 1].data, ps[|ps| - 1].frames + [f])]
  {
    var init, p := ps[..|ps| - 1], ps[|ps| - 1];
    assert ps == init + [p];
    var p' := ExtendFrames(p, f);
    ps' := init + [p'];
    FlattenLast(init, p);
    FlattenLast(init, p');
  }

  lemma FlattenLast(init: seq<Part>, p: Part)
    ensures Flatten(init + [p]) == Flatten(init) + p.frames
  {
    FlattenConcat(init, [p]);
    assert Flatten([p]) == p.frames;
  }

  lemma ExtendFrames(p: Part, f: Frame) returns (p': Part)
    requires p.Valid() && IsFrame(f, p.data, |p.frames|)
    ensures p' == Part(p.data, p.frames + [f]) && p'.Valid()
  {
    p' := Part(p.data, p.frames + [f]);
  }

  /** A frame is sent. Where it may get lost although it is acknowledged, it is a whole message. */
  lemma FragmentInv(l: Link, tx: Transmission, rest: seq<Frame>, ps: seq<Part>, env: Env)
      returns (rest': seq<Frame>, ps': seq<Part>)
    requires LinkInv(l, rest, ps, env) && Possible(l, Fragment(tx), env) && env.limit <= MESSAGE_MAX
    requires env.Strict() || env.limit <= PAYLOAD_LEN
    ensures LinkInv(Apply(l, Fragment(tx), env), rest', ps', env)
  {
    var data := Current(l);
    var f := FrameAt(env.number, data, l.next, tx.magic, env.crc);
    var (q, ok) := SendFrame(l.pipe, f, tx.attempts, env.crc);
    FrameAtMostOnce(l.pipe, f, tx.attempts, env.crc);
    if env.Strict() {
      FrameOnce(l.pipe, f, tx.attempts, env.crc);
    }
    if q.queue == l.pipe.queue {
      rest', ps' := rest, ps;
      NotQueued(l, ps);
    } else {
      rest', ps' := ArrivalInv(l, f, rest, ps, env);
    }
  }

  lemma NotQueued(l: Link, ps: seq<Part>)
    requires IsSubseq(l.got + Datas(ps), Started(l)) && l.sending && l.msgs != []
    ensures IsSubseq(l.got + Datas(ps), l.msgs)
  {
    if l.next == 0 {
      LastAdded(l.got + Datas(ps), l.msgs);
    }
  }

  lemma LastAdded(a: seq<seq<Byte>>, msgs: seq<seq<Byte>>)
    requires msgs != [] && IsSubseq(a, msgs[..|msgs| - 1])
    ensures IsSubseq(a, msgs)
  {
    SubseqMore(a, msgs[..|msgs| - 1], msgs[|msgs| - 1]);
    assert msgs[..|msgs| - 1] + [msgs[|msgs| - 1]] == msgs;
  }

  // ---------- whole runs ----------

  ghost predicate Fresh(l: Link) {
    l.pipe.queue == [] && l.msgs == [] && l.got == [] && !l.sending && l.reader == Away
  }

  /** A run from `l`: every event is possible where it occurs. */
  ghost predicate IsRun(l: Link, events: seq<Event>, env: Env)
    decreases |events|
  {
    events == [] || (Possible(l, events[0], env) && IsRun(Apply(l, events[0], env), events[1..], env))
  }

  ghost function After(l: Link, events: seq<Event>, env: Env): Link
    requires IsRun(l, events, env)
    decreases |events|
  {
    if events == [] then l else After(Apply(l, events[0], env), events[1..], env)
  }

  lemma {:induction false} RunInv(l: Link, events: seq<Event>, rest: seq<Frame>, ps: seq<Part>, env: Env)
      returns (rest': seq<Frame>, ps': seq<Part>)
    requires LinkInv(l, rest, ps, env) && IsRun(l, events, env) && env.limit <= MESSAGE_MAX
    requires env.Strict() || env.limit <= PAYLOAD_LEN
    ensures LinkInv(After(l, events, env), rest', ps', env)
    decreases |events|
  {
    rest', ps' := rest, ps;
    if events != [] {
      match events[0] {
        case Begin(data) => BeginInv(l, data, rest, ps, env);
        case Fragment(tx) => rest', ps' := FragmentInv(l, tx, rest, ps, env);
        case Call(_) =>
        case Take => rest', ps' := TakeInv(l, rest, ps, env);
        case GiveUp =>
          rest' := [];
          ps' := GiveUpInv(l, rest, ps, env);
      }
      rest', ps' := RunInv(Apply(l, events[0], env), events[1..], rest', ps', env);
    }
  }

  /** What is read is a subsequence of what was written. */
  lemma RunsAreSafe(l: Link, events: seq<Event>, env: Env)
    requires Fresh(l) && IsRun(l, events, env) && env.limit <= MESSAGE_MAX
    requires env.Strict() || env.limit <= PAYLOAD_LEN
    ensures IsSubseq(After(l, events, env).got, After(l, events, env).msgs)
  {
    assert l.got + Datas([]) == [];
    var rest, ps := RunInv(l, events, [], [], env);
    ReadSoFar(After(l, events, env), ps);
  }

  lemma ReadSoFar(l: Link, ps: seq<Part>)
    requires IsSubseq(l.got + Datas(ps), Started(l))
    ensures IsSubseq(l.got, l.msgs)
  {
    assert l.got + Datas(ps) + [] == l.got + Datas(ps) && l.got + [] == l.got;
    DropMiddle(l.got, Datas(ps), [], Started(l));
    if Started(l) != l.msgs {
      LastAdded(l.got, l.msgs);
    }
  }

  /** ESP-NOW safety: whatever is lost, acknowledged or retried, however sender and reader take
      turns and whenever the reader gives up, the messages returned are exactly messages written,
      in order and none twice. */
  lemma ReadsAreWrittenMessages(l: Link, events: seq<Event>, env: Env) returns (places: seq<nat>)
    requires Fresh(l) && IsRun(l, events, env) && env.limit <= MESSAGE_MAX && env.Strict()
    ensures Embeds(places, After(l, events, env).got, After(l, events, env).msgs)
  {
    RunsAreSafe(l, events, env);
    places := SubseqEmbeds(After(l, events, env).got, After(l, events, env).msgs);
  }
}
