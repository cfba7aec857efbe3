/** Delivery over an ESP-NOW pipe: while every write succeeds, the queue has room for each frame
    and the reader is patient and brings buffers that are large enough, every message is read. */
module EspnowLossless {
  import opened Prelude
  import opened Espnow
  import opened EspnowDelivery

  /** The write goes on, the buffer is larger than any message, and the reader never gives up. */
  ghost predicate Smooth(l: Link, e: Event, env: Env)
    requires Possible(l, e, env)
  {
    match e
    case Fragment(tx) =>
      SendFrame(l.pipe, FrameAt(env.number, Current(l), l.next, tx.magic, env.crc), tx.attempts, env.crc).1
    case Call(size) => size > env.limit
    case GiveUp => false
    case _ => true
  }

  ghost predicate IsSmoothRun(l: Link, events: seq<Event>, env: Env)
    decreases |events|
  {
    events == [] ||
    (&& Possible(l, events[0], env) && Smooth(l, events[0], env)
     && IsSmoothRun(Apply(l, events[0], env), events[1..], env))
  }

  lemma {:induction false} SmoothRunIsRun(l: Link, events: seq<Event>, env: Env)
    requires IsSmoothRun(l, events, env)
    ensures IsRun(l, events, env)
    decreases |events|
  {
    if events != [] {
      SmoothRunIsRun(Apply(l, events[0], env), events[1..], env);
    }
  }

  ghost predicate AllWhole(ps: seq<Part>) {
    forall i | 0 <= i < |ps| :: ps[i].Whole()
  }

  /** All parts are whole, except for the last one while its message is being sent. */
  ghost predicate WholeSoFar(l: Link, ps: seq<Part>) {
    if l.sending && l.next > 0 then
      && ps != [] && l.msgs != [] && AllWhole(ps[..|ps| - 1])
      && ps[|ps| - 1].data == Current(l) && |ps[|ps| - 1].frames| == l.next
    else
      AllWhole(ps)
  }

  ghost predicate AllFit(ps: seq<Part>, limit: nat) {
    forall i | 0 <= i < |ps| :: |ps[i].data| <= limit
  }

  /** What has been read, followed by what is queued, is what was written. */
  ghost predicate LosslessInv(l: Link, ps: seq<Part>, env: Env) {
    && Holds(l.reader, l.pipe.queue, [], ps) && AllFit(ps, env.limit)
    && l.got + Datas(ps) == Started(l)
    && SendingOk(l, env) && WholeSoFar(l, ps)
    && (l.reader.Waiting? ==> l.reader.size > env.limit)
  }

  /** A part that is not the last one, or whose message has been sent, is whole. */
  lemma FirstWhole(l: Link, ps: seq<Part>)
    requires WholeSoFar(l, ps) && ps != []
    requires |ps| > 1 || (l.sending && l.next > 0 ==> ps[0].Whole())
    ensures ps[0].Whole()
  {
    if l.sending && l.next > 0 && |ps| > 1 {
      assert ps[..|ps| - 1][0] == ps[0];
    }
  }

  lemma DropFirst(l: Link, ps: seq<Part>, limit: nat)
    requires WholeSoFar(l, ps) && ps != [] && AllFit(ps, limit)
    requires l.sending && l.next > 0 ==> |ps| > 1
    ensures WholeSoFar(l, ps[1..]) && AllFit(ps[1..], limit)
    ensures Datas(ps) == [ps[0].data] + Datas(ps[1..])
  {
    if l.sending && l.next > 0 {
      assert ps[1..][..|ps| - 2] == ps[..|ps| - 1][1..];
    }
  }

  /** The reader takes a frame: either it goes on, or it returns the first of the messages. */
  lemma TakeResult(l: Link, ps: seq<Part>, env: Env) returns (done: bool)
    requires LosslessInv(l, ps, env) && Possible(l, Take, env)
    ensures ps != []
    ensures var (rd, result) := TakeFrame(l.reader, l.pipe.queue[0]);
            var q := l.pipe.queue[1..];
            if done then
              rd == Away && result == Some(Done(ps[0].data)) && q == Flatten(ps[1..]) && ps[0].Whole()
            else
              rd.Collecting? && result == None && Holds(rd, q, [], ps)
  {
    assert [] + Flatten(ps) == Flatten(ps);
    if l.reader.Waiting? {
      done := WaitingTakes(ps, l.reader.size);
    } else {
      if l.reader.expected == |ps[0].frames| {
        assert l.pipe.queue == Flatten(ps[1..]);
        FirstWhole(l, ps);
        assert false;
      }
      done := CollectingTakes(ps, l.reader.expected);
    }
  }

  lemma WaitingTakes(ps: seq<Part>, size: nat) returns (done: bool)
    requires AllValid(ps) && ps != [] && size > |ps[0].data|
    ensures Flatten(ps) != []
    ensures var (rd, result) := TakeFrame(Waiting(size), Flatten(ps)[0]);
            var q := Flatten(ps)[1..];
            if done then
              rd == Away && result == Some(Done(ps[0].data)) && q == Flatten(ps[1..]) && ps[0].Whole()
            else
              rd.Collecting? && result == None && Holds(rd, q, [], ps)
  {
    assert ps[0].Valid();
    TakeFirst(ps[0], ps[1..], size);
    done := FrameCount(ps[0].data) == 1;
  }

  lemma CollectingTakes(ps: seq<Part>, e: nat) returns (done: bool)
    requires AllValid(ps) && ps != [] && 0 < e < |ps[0].frames|
    ensures ps[0].frames[e..] + Flatten(ps[1..]) != []
    ensures var q := ps[0].frames[e..] + Flatten(ps[1..]);
            var (rd, result) := TakeFrame(Collecting(e, |ps[0].data|, Prefix(ps[0].data, e)), q[0]);
            if done then
              rd == Away && result == Some(Done(ps[0].data)) && q[1..] == Flatten(ps[1..]) && ps[0].Whole()
            else
              rd.Collecting? && result == None && Holds(rd, q[1..], [], ps)
  {
    assert ps[0].Valid();
    TakeMore(ps[0], ps[1..], e);
    done := e + 1 == FrameCount(ps[0].data);
  }

  lemma TakeSmooth(l: Link, ps: seq<Part>, env: Env) returns (ps': seq<Part>)
    requires LosslessInv(l, ps, env) && Possible(l, Take, env)
    ensures LosslessInv(Apply(l, Take, env), ps', env)
  {
    var done := TakeResult(l, ps, env);
    if done {
      ps' := ps[1..];
      FirstReturned(l, ps, env);
    } else {
      ps' := ps;
      assert l.got + [] == l.got;
    }
  }

  lemma FirstReturned(l: Link, ps: seq<Part>, env: Env)
    requires LosslessInv(l, ps, env) && ps != [] && ps[0].Whole() && l.pipe.queue != []
    requires l.pipe.queue[1..] == Flatten(ps[1..])
    ensures LosslessInv(l.(pipe := l.pipe.(queue := l.pipe.queue[1..]), reader := Away, got := l.got + [ps[0].data]), ps[1..], env)
  {
    StillIncomplete(l, ps);
    DropFirst(l, ps, env.limit);
    assert [] + Flatten(ps[1..]) == Flatten(ps[1..]);
    assert l.got + ([ps[0].data] + Datas(ps[1..])) == l.got + [ps[0].data] + Datas(ps[1..]);
  }

  lemma StillIncomplete(l: Link, ps: seq<Part>)
    requires WholeSoFar(l, ps) && ps != [] && ps[0].Whole()
    requires l.sending ==> l.msgs != [] && l.next < FrameCount(Current(l))
    ensures l.sending && l.next > 0 ==> |ps| > 1
  {
  }

  lemma FragmentSmooth(l: Link, tx: Transmission, ps: seq<Part>, env: Env) returns (ps': seq<Part>)
    requires LosslessInv(l, ps, env) && Possible(l, Fragment(tx), env) && Smooth(l, Fragment(tx), env)
    requires env.Strict() && env.limit <= MESSAGE_MAX
    ensures LosslessInv(Apply(l, Fragment(tx), env), ps', env)
  {
    var f := FrameAt(env.number, Current(l), l.next, tx.magic, env.crc);
    FrameOnce(l.pipe, f, tx.attempts, env.crc);
    ps' := Arrives(l, f, ps, env);
    assert Apply(l, Fragment(tx), env).pipe.queue == l.pipe.queue + [f];
  }

  lemma Arrives(l: Link, f: Frame, ps: seq<Part>, env: Env) returns (ps': seq<Part>)
    requires LosslessInv(l, ps, env) && l.sending && env.limit <= MESSAGE_MAX && IsFrame(f, Current(l), l.next)
    ensures Holds(l.reader, l.pipe.queue + [f], [], ps') && AllFit(ps', env.limit) && l.got + Datas(ps') == l.msgs
    ensures ps' != [] && AllWhole(ps'[..|ps'| - 1])
    ensures ps'[|ps'| - 1].data == Current(l) && |ps'[|ps'| - 1].frames| == l.next + 1
  {
    if l.next == 0 {
      ps' := ps + [Part(Current(l), [f])];
      FirstArrives(l, f, ps, env);
    } else {
      ps' := ExtendPart(ps, f);
      QueueExtended(l.reader, l.pipe.queue, [], ps, ps', f);
      Extended(ps, ps', f);
    }
  }

  lemma FirstArrives(l: Link, f: Frame, ps: seq<Part>, env: Env)
    requires LosslessInv(l, ps, env) && l.sending && l.next == 0 && env.limit <= MESSAGE_MAX && IsFrame(f, Current(l), 0)
    ensures var ps' := ps + [Part(Current(l), [f])];
            && Holds(l.reader, l.pipe.queue + [f], [], ps') && AllFit(ps', env.limit) && l.got + Datas(ps') == l.msgs
            && ps'[..|ps|] == ps
  {
    var p := Part(Current(l), [f]);
    var ps' := ps + [p];
    QueueGrows(l.reader, l.pipe.queue, [], ps, p, f);
    AppendMessage(l.got, Datas(ps), Current(l), l.msgs);
    assert Datas(ps') == Datas(ps) + [p.data];
  }

  lemma AppendMessage(got: seq<seq<Byte>>, queued: seq<seq<Byte>>, data: seq<Byte>, msgs: seq<seq<Byte>>)
    requires msgs != [] && msgs[|msgs| - 1] == data && got + queued == msgs[..|msgs| - 1]
    ensures got + (queued + [data]) == msgs
  {
    assert msgs == msgs[..|msgs| - 1] + [data];
    assert got + (queued + [data]) == got + queued + [data];
  }

  lemma Extended(ps: seq<Part>, ps': seq<Part>, f: Frame)
    requires ps != [] && ps' == ps[..|ps| - 1] + [Part(ps[|ps| - 1].data, ps[|ps| - 1].frames + [f])]
    ensures Datas(ps') == Datas(ps) && ps'[..|ps'| - 1] == ps[..|ps| - 1]
  {
  }

  lemma SmoothStep(l: Link, e: Event, ps: seq<Part>, env: Env) returns (ps': seq<Part>)
    requires LosslessInv(l, ps, env) && Possible(l, e, env) && Smooth(l, e, env)
    requires env.Strict() && env.limit <= MESSAGE_MAX
    ensures LosslessInv(Apply(l, e, env), ps', env)
  {
    match e
    case Begin(data) =>
      ps' := ps;
      assert (l.msgs + [data])[..|l.msgs|] == l.msgs;
    case Fragment(tx) => ps' := FragmentSmooth(l, tx, ps, env);
    case Call(_) => ps' := ps;
    case Take => ps' := TakeSmooth(l, ps, env);
  }

  lemma {:induction false} SmoothInv(l: Link, events: seq<Event>, ps: seq<Part>, env: Env) returns (ps': seq<Part>)
    requires LosslessInv(l, ps, env) && IsSmoothRun(l, events, env)
    requires env.Strict() && env.limit <= MESSAGE_MAX
    ensures IsRun(l, events, env) && LosslessInv(After(l, events, env), ps', env)
    decreases |events|
  {
    SmoothRunIsRun(l, events, env);
    ps' := ps;
    if events != [] {
      ps' := SmoothStep(l, events[0], ps, env);
      ps' := SmoothInv(Apply(l, events[0], env), events[1..], ps', env);
    }
  }

  lemma FreshIsLossless(l: Link, env: Env)
    requires Fresh(l)
    ensures LosslessInv(l, [], env)
  {
    assert l.got + Datas([]) == [];
  }

  /** ESP-NOW delivery: however the writer and the reader take turns, what has been read is the
      beginning of what has been written, up to the messages that are still in the queue; when
      these are none, it is everything. The queue may be much shorter than the messages. */
  lemma EverythingArrives(l: Link, events: seq<Event>, env: Env) returns (ps: seq<Part>)
    requires Fresh(l) && IsSmoothRun(l, events, env) && env.Strict() && env.limit <= MESSAGE_MAX
    ensures IsRun(l, events, env)
    ensures var l' := After(l, events, env);
            && l'.got + Datas(ps) == Started(l') && Holds(l'.reader, l'.pipe.queue, [], ps)
            && l'.got <= l'.msgs
            && (l'.pipe.queue == [] && !l'.reader.Collecting? && !l'.sending ==> l'.got == l'.msgs)
  {
    FreshIsLossless(l, env);
    ps := SmoothInv(l, events, [], env);
    var l' := After(l, events, env);
    BeginningOf(l'.got, Datas(ps), l'.msgs, Started(l'));
    if l'.pipe.queue == [] && !l'.reader.Collecting? {
      NothingQueued(l', ps);
      assert l'.got + [] == l'.got;
    }
  }

  lemma BeginningOf(got: seq<seq<Byte>>, queued: seq<seq<Byte>>, msgs: seq<seq<Byte>>, started: seq<seq<Byte>>)
    requires got + queued == started && started <= msgs
    ensures got <= msgs
  {
    assert got == started[..|got|];
  }

  lemma NothingQueued(l: Link, ps: seq<Part>)
    requires Holds(l.reader, l.pipe.queue, [], ps) && l.pipe.queue == [] && !l.reader.Collecting?
    ensures ps == [] && Datas(ps) == []
  {
    assert [] + Flatten(ps) == Flatten(ps);
    assert ps == [] || ps[0].Valid();
  }

  /** Once the writer is done, the reader only has to go on: some sequence of calls and frames
      taken gives it all the messages. */
  lemma {:induction false} ReadsFinish(l: Link, ps: seq<Part>, env: Env) returns (events: seq<Event>)
    requires LosslessInv(l, ps, env) && !l.sending && env.Strict() && env.limit <= MESSAGE_MAX
    ensures forall e | e in events :: e.Call? || e.Take?
    ensures IsSmoothRun(l, events, env) && IsRun(l, events, env)
    ensures After(l, events, env).got == l.msgs
    decreases |l.pipe.queue|, l.reader == Away
  {
    if l.pipe.queue == [] {
      events := [];
      if l.reader.Collecting? {
        FirstWhole(l, ps);
        assert false;
      }
      NothingQueued(l, ps);
      assert l.got + [] == l.got;
    } else {
      var e := if l.reader == Away then Call(env.limit + 1) else Take;
      var ps' := SmoothStep(l, e, ps, env);
      var rest := ReadsFinish(Apply(l, e, env), ps', env);
      events := [e] + rest;
      assert events[1..] == rest;
    }
  }

  /** Any smooth run after which nothing is being sent can be completed so that everything
      written has been read. */
  lemma EverythingCanBeRead(l: Link, events: seq<Event>, env: Env) returns (more: seq<Event>)
    requires Fresh(l) && IsSmoothRun(l, events, env) && env.Strict() && env.limit <= MESSAGE_MAX
    requires IsRun(l, events, env) && !After(l, events, env).sending
    ensures forall e | e in more :: e.Call? || e.Take?
    ensures IsSmoothRun(After(l, events, env), more, env) && IsRun(After(l, events, env), more, env)
    ensures After(After(l, events, env), more, env).got == After(l, events, env).msgs
  {
    FreshIsLossless(l, env);
    var ps := SmoothInv(l, events, [], env);
    more := ReadsFinish(After(l, events, env), ps, env);
  }
}
