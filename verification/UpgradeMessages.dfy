/** What each message does to the root's lists, and where the root stops reading. */
module UpgradeMessages {
  import opened Prelude
  import opened Bitmap
  import opened Addresses
  import opened UpgradeNode
  import opened UpgradeRoot

  // ---------- what one message does to its sender ----------

  /** Only the sender's place on the lists can change. */
  ghost predicate OthersStay(r: Root, s: Root, m: Msg) {
    forall a | a != m.src ::
      && (a in s.unfinished <==> a in r.unfinished) && (a in s.successed <==> a in r.successed)
      && (a in s.requested <==> a in r.requested) && (a in s.pending <==> a in r.pending)
  }

  lemma InAppended(list: seq<Addr>, x: Addr)
    ensures forall a :: a in list + [x] <==> a in list || a == x
  {
  }

  lemma SucceedMoves(r: Root, a: Addr)
    requires NoDup(r.unfinished)
    ensures var s := Succeed(r, a);
            && a !in s.unfinished && (a in s.successed <==> a in r.unfinished || a in r.successed)
            && s.requested == r.requested && s.pending == r.pending
            && forall b | b != a :: (b in s.unfinished <==> b in r.unfinished) && (b in s.successed <==> b in r.successed)
  {
    NoDupRemove(r.unfinished, a);
    InAppended(r.successed, a);
  }

  /** A message before the request: a complete one makes its sender successed, a stop takes it off the
      list, anything else changes nothing. */
  lemma DrainStepMeaning(r: Root, m: Msg)
    requires NoDup(r.unfinished)
    ensures var s := DrainStep(r, m);
            && OthersStay(r, s, m) && s.requested == r.requested && s.pending == r.pending
            && (if m.Complete() then m.src !in s.unfinished && (m.src in s.successed <==> m.src in r.unfinished + r.successed)
                else if m.Stopped() then m.src !in s.unfinished && s.successed == r.successed
                else s == r)
  {
    NoDupRemove(r.unfinished, m.src);
    SucceedMoves(r, m.src);
  }

  /** An answer: a stop takes its sender off both lists, and the first answer of anyone else settles
      whether it is successed or requested. */
  lemma ResponseStepMeaning(r: Root, m: Msg)
    requires NoDup(r.unfinished) && NoDup(r.pending) && m.Readable() && |r.progress| == BITMAP_SIZE && 0 < m.report.totalSize
    ensures var s := ResponseStep(r, m);
            && OthersStay(r, s, m) && m.src !in s.pending
            && (if m.Stopped() then
                  m.src !in s.unfinished && s.successed == r.successed && s.requested == r.requested
                else if m.src !in r.pending then s == r
                else if m.Complete() then
                  && m.src !in s.unfinished && (m.src in s.successed <==> m.src in r.unfinished + r.successed)
                  && s.requested == r.requested && s.progress == r.progress
                else
                  && s.unfinished == r.unfinished && s.successed == r.successed && s.requested == r.requested + [m.src])
  {
    NoDupRemove(r.unfinished, m.src);
    NoDupRemove(r.pending, m.src);
    SucceedMoves(r.(pending := RemoveFirst(r.pending, m.src)), m.src);
    InAppended(r.requested, m.src);
  }

  /** A message between packets: only a stop counts, and takes its sender off both lists. */
  lemma MidStepMeaning(r: Root, m: Msg)
    requires NoDup(r.unfinished) && NoDup(r.requested) && 0 < m.report.totalSize
    ensures var s := MidStep(r, m);
            && OthersStay(r, s, m) && s.successed == r.successed && s.pending == r.pending
            && if m.Stopped() then m.src !in s.unfinished && m.src !in s.requested else s == r
  {
    NoDupRemove(r.unfinished, m.src);
    NoDupRemove(r.requested, m.src);
  }

  // ---------- where reading ends ----------

  /** Nothing is read from the queue once nobody is unfinished, or once all have answered. */
  lemma {:induction false} DrainStops(r: Root, ms: seq<Msg>, more: seq<Msg>)
    requires Drain(r, ms).unfinished == []
    ensures Drain(r, ms + more) == Drain(r, ms)
    decreases |ms|
  {
    if ms != [] && r.unfinished != [] {
      assert (ms + more)[0] == ms[0] && (ms + more)[1..] == ms[1..] + more;
      DrainStops(DrainStep(r, ms[0]), ms[1..], more);
    }
  }

  lemma {:induction false} CollectStops(r: Root, ms: seq<Msg>, more: seq<Msg>)
    requires AllReadable(ms) && AllReadable(more) && |r.progress| == BITMAP_SIZE && Collect(r, ms).pending == []
    ensures Collect(r, ms + more) == Collect(r, ms)
    decreases |ms|
  {
    if ms != [] && r.pending != [] {
      assert (ms + more)[0] == ms[0] && (ms + more)[1..] == ms[1..] + more;
      CollectStops(ResponseStep(r, ms[0]), ms[1..], more);
    }
  }

  /** And the request is repeated only for those that have not answered, up to three times. */
  lemma {:induction false} AttemptsStop(r: Root, attempts: seq<seq<Msg>>, more: seq<seq<Msg>>)
    requires (forall ms | ms in attempts + more :: AllReadable(ms)) && |r.progress| == BITMAP_SIZE
    requires (forall ms | ms in attempts :: AllReadable(ms))
    ensures Attempts(r, attempts).pending == [] ==> Attempts(r, attempts + more) == Attempts(r, attempts)
    ensures (forall ms | ms in more :: AllReadable(ms)) && Attempts(r, attempts + more) == Attempts(Attempts(r, attempts), more)
    decreases |attempts|
  {
    assert forall ms | ms in more :: ms in attempts + more;
    if attempts == [] {
      assert attempts + more == more;
    } else if r.pending != [] {
      assert (attempts + more)[0] == attempts[0] && (attempts + more)[1..] == attempts[1..] + more;
      AttemptsStop(Collect(r, attempts[0]), attempts[1..], more);
    }
  }
}
