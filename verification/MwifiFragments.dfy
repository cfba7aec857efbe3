/** Fragmentation and reassembly of mesh packets (mwifi.c): the 13-bit total size split over two
    fields, the 3-bit sequence number, and the two read loops with their resynchronisation. */
module MwifiFragments {
  import opened Prelude

  const PAYLOAD_LEN := 1456
  const MESSAGE_MAX := 8191

  /** The part of mwifi_data_head_t that forwarding looks at. */
  datatype Route = Route(self: bool, all: bool, num: nat)

  /** mwifi_data_head_t; sizeLow has 12 bits, sizeHigh one and seqNo three. */
  datatype Packet = Packet(magic: nat, route: Route, sizeLow: nat, sizeHigh: nat, seqNo: nat, data: seq<Byte>)

  // ---------- mwifi_subcontract_write ----------

  function FragmentCount(data: seq<Byte>): nat {
    (|data| + PAYLOAD_LEN - 1) / PAYLOAD_LEN
  }

  function Chunk(data: seq<Byte>, i: nat): (c: seq<Byte>)
    requires i < FragmentCount(data)
    ensures 0 < |c| <= PAYLOAD_LEN
  {
    data[i * PAYLOAD_LEN..Min((i + 1) * PAYLOAD_LEN, |data|)]
  }

  function Fragment(route: Route, data: seq<Byte>, i: nat, magic: nat): (p: Packet)
    requires i < FragmentCount(data)
  {
    Packet(magic, route, |data| % 0x1000, |data| / 0x1000 % 2, i % 8, Chunk(data, i))
  }

  /** Fragments i and following of a message. */
  function Fragments(route: Route, data: seq<Byte>, i: nat, magics: seq<nat>): (ps: seq<Packet>)
    requires i <= FragmentCount(data) == |magics|
    ensures |ps| == FragmentCount(data) - i
  {
    seq(FragmentCount(data) - i, k requires 0 <= k < FragmentCount(data) - i => Fragment(route, data, i + k, magics[i + k]))
  }

  /** What esp_mesh_send answers; a packet is on its way if it answers `Sent`. */
  datatype Answer = Sent | NoMemory | Error

  const SEND_RETRY := 3

  /** The retry loop for one packet. */
  predicate GetsOut(answers: seq<Answer>)
    decreases |answers|
  {
    answers != [] && (answers[0] == Sent || (answers[0] == NoMemory && GetsOut(answers[1..])))
  }

  /** It gets out exactly if the first answer other than out-of-memory is that it is sent. */
  lemma {:induction false} GetsOutIff(answers: seq<Answer>)
    ensures GetsOut(answers) <==>
            exists k :: 0 <= k < |answers| && answers[k] == Sent && forall j | 0 <= j < k :: answers[j] == NoMemory
    decreases |answers|
  {
    if answers != [] && answers[0] == NoMemory {
      GetsOutIff(answers[1..]);
      if GetsOut(answers) {
        var k :| 0 <= k < |answers[1..]| && answers[1..][k] == Sent && forall j | 0 <= j < k :: answers[1..][j] == NoMemory;
        assert answers[k + 1] == Sent && forall j | 0 < j < k + 1 :: answers[j] == answers[1..][j - 1];
      } else {
        forall k | 0 <= k < |answers| && answers[k] == Sent ensures exists j | 0 <= j < k :: answers[j] != NoMemory {
          assert answers[1..][k - 1] == Sent;
          var j :| 0 <= j < k - 1 && answers[1..][j] != NoMemory;
          assert answers[j + 1] != NoMemory;
        }
      }
    }
  }

  /** Whatever the message, each field of the header fits its width. */
  lemma HeaderFits(route: Route, data: seq<Byte>, i: nat, magic: nat)
    requires i < FragmentCount(data)
    ensures var p := Fragment(route, data, i, magic);
            p.sizeLow < 0x1000 && p.sizeHigh < 2 && p.seqNo < 8 && p.seqNo == i % 8 && p.route == route && p.magic == magic
  {
  }

  /** mwifi_subcontract_write: the packets sent and whether all were. */
  function SubcontractWrite(route: Route, data: seq<Byte>, i: nat, magics: seq<nat>, air: seq<seq<Answer>>): (r: (seq<Packet>, bool))
    requires i <= FragmentCount(data) == |magics| == |air|
    decreases |air| - i
  {
    if i == |air| then ([], true)
    else if !GetsOut(air[i]) then ([], false)
    else
      var (rest, ok) := SubcontractWrite(route, data, i + 1, magics, air);
      ([Fragment(route, data, i, magics[i])] + rest, ok)
  }

  lemma {:induction false} SubcontractSendsFragments(route: Route, data: seq<Byte>, i: nat, magics: seq<nat>, air: seq<seq<Answer>>)
    requires i <= FragmentCount(data) == |magics| == |air|
    ensures var (ps, ok) := SubcontractWrite(route, data, i, magics, air);
            && ps <= Fragments(route, data, i, magics)
            && (ok <==> ps == Fragments(route, data, i, magics))
    decreases |air| - i
  {
    if i < |air| && GetsOut(air[i]) {
      SubcontractSendsFragments(route, data, i + 1, magics, air);
      FragmentsCons(route, data, i, magics);
    }
  }

  lemma FragmentsCons(route: Route, data: seq<Byte>, i: nat, magics: seq<nat>)
    requires i < FragmentCount(data) == |magics|
    ensures Fragments(route, data, i, magics) ==
            [Fragment(route, data, i, magics[i])] + Fragments(route, data, i + 1, magics)
  {
  }

  // ---------- reading ----------

  function TotalSize(p: Packet): nat {
    p.sizeHigh * 0x1000 + p.sizeLow
  }

  datatype ReadResult = Timeout | Done(route: Route, data: seq<Byte>)

  /** The inner loop of __mwifi_read: `expected` is expect_seq, `buf` what has been received and
      `last` the static s_data_magic. The result comes with the new magic and the packets left. */
  function ReadLoop(q: seq<Packet>, expected: int, buf: seq<Byte>, total: nat, route: Route, last: nat)
      : (r: (ReadResult, nat, seq<Packet>))
    decreases |q|
  {
    if buf != [] && |buf| >= total then (Done(route, buf), last, q)
    else if q == [] then (Timeout, last, [])
    else
      var p := q[0];
      if p.seqNo != expected && p.seqNo != 0 then
        ReadLoop(q[1..], 0, [], total, p.route, last)
      else
        var buf := if p.seqNo != expected then [] else buf;
        var expected := if p.seqNo != expected then -1 else expected;
        if p.magic == last then
          ReadLoop(q[1..], expected, buf, total, p.route, last)
        else
          ReadLoop(q[1..], expected + 1, buf + p.data, TotalSize(p), p.route, p.magic)
  }

  const NO_ROUTE := Route(false, false, 0)

  function Read(q: seq<Packet>, last: nat): (r: (ReadResult, nat, seq<Packet>)) {
    ReadLoop(q, 0, [], 0, NO_ROUTE, last)
  }

  /** The loop of __mwifi_root_read: it has no duplicate filter and goes on as long as
      expect_seq is 0. */
  function RootReadLoop(q: seq<Packet>, expected: int, buf: seq<Byte>, total: nat, route: Route): (r: (ReadResult, seq<Packet>))
    decreases |q|
  {
    if expected != 0 && |buf| >= total then (Done(route, buf), q)
    else if q == [] then (Timeout, [])
    else
      var p := q[0];
      if p.seqNo != expected && p.seqNo != 0 then RootReadLoop(q[1..], 0, [], total, p.route)
      else
        var buf := if p.seqNo != expected then [] else buf;
        var expected := if p.seqNo != expected then -1 else expected;
        RootReadLoop(q[1..], expected + 1, buf + p.data, TotalSize(p), p.route)
  }

  function RootRead(q: seq<Packet>): (r: (ReadResult, seq<Packet>)) {
    RootReadLoop(q, 0, [], 0, NO_ROUTE)
  }

  // ---------- round trip ----------

  function Prefix(data: seq<Byte>, j: nat): seq<Byte> {
    data[..Min(j * PAYLOAD_LEN, |data|)]
  }

  lemma PrefixGrows(data: seq<Byte>, j: nat)
    requires j < FragmentCount(data)
    ensures Prefix(data, j) + Chunk(data, j) == Prefix(data, j + 1)
    ensures |Prefix(data, j)| < |Prefix(data, j + 1)| && |Prefix(data, j)| < |data|
  {
  }

  lemma SizeFits(data: seq<Byte>)
    requires |data| <= MESSAGE_MAX
    ensures |data| / 0x1000 % 2 * 0x1000 + |data| % 0x1000 == |data|
    ensures FragmentCount(data) <= 6
  {
  }

  /** The magic of each fragment differs from the one before it, the first from `last`. */
  ghost predicate FreshMagics(last: nat, magics: seq<nat>, i: nat) {
    && (i < |magics| ==> magics[i] != last)
    && forall j | i < j < |magics| :: magics[j] != magics[j - 1]
  }

  function LastOf(magics: seq<nat>, last: nat): nat {
    if magics == [] then last else magics[|magics| - 1]
  }

  /** Each fragment has its number and tells the true size. */
  lemma FragmentFields(route: Route, data: seq<Byte>, i: nat, magic: nat)
    requires |data| <= MESSAGE_MAX && i < FragmentCount(data)
    ensures Fragment(route, data, i, magic).seqNo == i && TotalSize(Fragment(route, data, i, magic)) == |data|
  {
    SizeFits(data);
  }

  lemma NextFragment(route: Route, data: seq<Byte>, i: nat, magics: seq<nat>, rest: seq<Packet>)
    requires i < FragmentCount(data) == |magics|
    ensures var q := Fragments(route, data, i, magics) + rest;
            q[0] == Fragment(route, data, i, magics[i]) && q[1..] == Fragments(route, data, i + 1, magics) + rest
  {
    FragmentsCons(route, data, i, magics);
  }

  /** From fragment i of a message on, with i fragments received. */
  lemma {:induction false} ReadRest(route: Route, data: seq<Byte>, i: nat, magics: seq<nat>, last: nat, rest: seq<Packet>,
                                    total: nat, seen: Route)
    requires 0 < |data| <= MESSAGE_MAX && i <= FragmentCount(data) == |magics|
    requires FreshMagics(last, magics, i) && (i > 0 ==> total == |data| && seen == route && last == magics[i - 1])
    ensures ReadLoop(Fragments(route, data, i, magics) + rest, i, Prefix(data, i), total, seen, last) ==
            (Done(route, data), LastOf(magics, last), rest)
    decreases |magics| - i
  {
    if i == |magics| {
      assert Fragments(route, data, i, magics) + rest == rest && Prefix(data, i) == data;
    } else {
      PrefixGrows(data, i);
      FragmentFields(route, data, i, magics[i]);
      NextFragment(route, data, i, magics, rest);
      ReadRest(route, data, i + 1, magics, magics[i], rest, |data|, route);
    }
  }

  lemma {:induction false} RootReadRest(route: Route, data: seq<Byte>, i: nat, magics: seq<nat>, rest: seq<Packet>,
                                        total: nat, seen: Route)
    requires 0 < |data| <= MESSAGE_MAX && i <= FragmentCount(data) == |magics|
    requires i > 0 ==> total == |data| && seen == route
    ensures RootReadLoop(Fragments(route, data, i, magics) + rest, i, Prefix(data, i), total, seen) ==
            (Done(route, data), rest)
    decreases |magics| - i
  {
    if i == |magics| {
      assert Fragments(route, data, i, magics) + rest == rest && Prefix(data, i) == data;
    } else {
      PrefixGrows(data, i);
      FragmentFields(route, data, i, magics[i]);
      NextFragment(route, data, i, magics, rest);
      RootReadRest(route, data, i + 1, magics, rest, |data|, route);
    }
  }

  /** One message over a reliable channel, with its length read back exactly. */
  lemma RoundTrip(route: Route, data: seq<Byte>, magics: seq<nat>, last: nat, rest: seq<Packet>)
    requires 0 < |data| <= MESSAGE_MAX && |magics| == FragmentCount(data) && FreshMagics(last, magics, 0)
    ensures Read(Fragments(route, data, 0, magics) + rest, last) == (Done(route, data), LastOf(magics, last), rest)
    ensures RootRead(Fragments(route, data, 0, magics) + rest) == (Done(route, data), rest)
  {
    assert Prefix(data, 0) == [];
    ReadRest(route, data, 0, magics, last, rest, 0, NO_ROUTE);
    RootRoundTrip(route, data, magics, rest);
  }

  lemma RootRoundTrip(route: Route, data: seq<Byte>, magics: seq<nat>, rest: seq<Packet>)
    requires 0 < |data| <= MESSAGE_MAX && |magics| == FragmentCount(data)
    ensures RootRead(Fragments(route, data, 0, magics) + rest) == (Done(route, data), rest)
  {
    assert Prefix(data, 0) == [];
    RootReadRest(route, data, 0, magics, rest, 0, NO_ROUTE);
  }

  /** A message with the magics of its fragments, and how often the last fragment arrives again. */
  datatype Message = Message(route: Route, data: seq<Byte>, magics: seq<nat>, copies: nat) {
    predicate Valid() {
      0 < |data| <= MESSAGE_MAX && |magics| == FragmentCount(data)
    }
  }

  ghost predicate Sendable(ms: seq<Message>, last: nat) {
    ms == [] ||
    (ms[0].Valid() && FreshMagics(last, ms[0].magics, 0) && Sendable(ms[1..], LastOf(ms[0].magics, last)))
  }

  predicate AllValid(ms: seq<Message>) {
    forall i | 0 <= i < |ms| :: ms[i].Valid()
  }

  function Copies(m: Message): (ps: seq<Packet>)
    requires m.Valid()
  {
    var i := |m.magics| - 1;
    seq(m.copies, _ => Fragment(m.route, m.data, i, m.magics[i]))
  }

  function Stream(ms: seq<Message>): seq<Packet>
    requires AllValid(ms)
  {
    if ms == [] then []
    else assert ms[0].Valid(); Fragments(ms[0].route, ms[0].data, 0, ms[0].magics) + (Copies(ms[0]) + Stream(ms[1..]))
  }

  /** n reads in a row that all return something. */
  function ReadMany(q: seq<Packet>, last: nat, n: nat): seq<seq<Byte>>
    decreases n
  {
    if n == 0 then []
    else
      var (r, m, rest) := Read(q, last);
      if r.Done? then [r.data] + ReadMany(rest, m, n - 1) else []
  }

  function RootReadMany(q: seq<Packet>, n: nat): seq<seq<Byte>>
    decreases n
  {
    if n == 0 then []
    else
      var (r, rest) := RootRead(q);
      if r.Done? then [r.data] + RootReadMany(rest, n - 1) else []
  }

  /** Packets at which nobody starts to read: not the first of a message, or seen already. */
  ghost predicate Skippable(left: seq<Packet>, last: nat) {
    forall i | 0 <= i < |left| :: left[i].seqNo != 0 || left[i].magic == last
  }

  ghost predicate SkippedStart(left: seq<Packet>) {
    forall i | 0 <= i < |left| :: left[i].seqNo != 0
  }

  /** While nothing has been received the total size and the route do not matter. */
  lemma {:induction false} NothingReceived(q: seq<Packet>, expected: int, total: nat, total': nat, route: Route, route': Route, last: nat)
    ensures ReadLoop(q, expected, [], total, route, last) == ReadLoop(q, expected, [], total', route', last)
    decreases |q|
  {
    if q != [] {
      var p := q[0];
      var again := if p.seqNo != expected then -1 else expected;
      NothingReceived(q[1..], again, total, total', p.route, p.route, last);
      NothingReceived(q[1..], 0, total, total', p.route, p.route, last);
    }
  }

  lemma {:induction false} SkipsLeftover(left: seq<Packet>, q: seq<Packet>, total: nat, route: Route, last: nat)
    requires Skippable(left, last)
    ensures ReadLoop(left + q, 0, [], total, route, last) == ReadLoop(q, 0, [], 0, NO_ROUTE, last)
    decreases |left|
  {
    var all := left + q;
    if left == [] {
      assert all == q;
      NothingReceived(q, 0, total, 0, route, NO_ROUTE, last);
    } else {
      assert all[0] == left[0] && all[1..] == left[1..] + q;
      SkipsLeftover(left[1..], q, total, left[0].route, last);
    }
  }

  lemma {:induction false} RootNothingReceived(q: seq<Packet>, total: nat, route: Route)
    ensures RootReadLoop(q, 0, [], total, route) == RootRead(q)
    decreases |q|
  {
    if q != [] {
      RootNothingReceived(q[1..], total, q[0].route);
      RootNothingReceived(q[1..], 0, q[0].route);
    }
  }

  lemma {:induction false} RootSkipsLeftover(left: seq<Packet>, q: seq<Packet>, total: nat, route: Route)
    requires SkippedStart(left)
    ensures RootReadLoop(left + q, 0, [], total, route) == RootRead(q)
    decreases |left|
  {
    var all := left + q;
    if left == [] {
      assert all == q;
      RootNothingReceived(q, total, route);
    } else {
      assert all[0] == left[0] && all[1..] == left[1..] + q;
      RootSkipsLeftover(left[1..], q, total, left[0].route);
    }
  }

  lemma {:induction false} SendableValid(ms: seq<Message>, last: nat)
    requires Sendable(ms, last)
    ensures AllValid(ms)
  {
    if ms != [] {
      SendableValid(ms[1..], LastOf(ms[0].magics, last));
    }
  }

  function Datas(ms: seq<Message>): (s: seq<seq<Byte>>)
    ensures |s| == |ms|
  {
    seq(|ms|, i requires 0 <= i < |ms| => ms[i].data)
  }

  /** Any list of messages comes back as it was sent, also if the last fragments arrive several
      times, and a reader that joins in the middle of a message skips to the next one. */
  lemma {:induction false} EverythingIsRead(left: seq<Packet>, ms: seq<Message>, last: nat)
    requires Sendable(ms, last) && Skippable(left, last)
    ensures AllValid(ms) && ReadMany(left + Stream(ms), last, |ms|) == Datas(ms)
    decreases |ms|
  {
    SendableValid(ms, last);
    if ms != [] {
      FirstIsRead(left, ms, last);
      EverythingIsRead(Copies(ms[0]), ms[1..], LastOf(ms[0].magics, last));
      assert Datas(ms) == [ms[0].data] + Datas(ms[1..]);
    }
  }

  lemma FirstIsRead(left: seq<Packet>, ms: seq<Message>, last: nat)
    requires Sendable(ms, last) && Skippable(left, last) && ms != []
    ensures AllValid(ms)
    ensures Read(left + Stream(ms), last) ==
            (Done(ms[0].route, ms[0].data), LastOf(ms[0].magics, last), Copies(ms[0]) + Stream(ms[1..]))
  {
    SendableValid(ms, last);
    var m := ms[0];
    SkipsLeftover(left, Stream(ms), 0, NO_ROUTE, last);
    RoundTrip(m.route, m.data, m.magics, last, Copies(m) + Stream(ms[1..]));
  }

  /** The root reads any list of messages as well, from wherever it joins. It has no filter for
      packets that arrive again. */
  lemma {:induction false} RootReadsEverything(left: seq<Packet>, ms: seq<Message>)
    requires AllValid(ms) && SkippedStart(left) && forall i | 0 <= i < |ms| :: ms[i].copies == 0
    ensures RootReadMany(left + Stream(ms), |ms|) == Datas(ms)
    decreases |ms|
  {
    if ms != [] {
      var m, more := ms[0], Stream(ms[1..]);
      RootSkipsLeftover(left, Stream(ms), 0, NO_ROUTE);
      assert Copies(m) + more == more;
      RootRoundTrip(m.route, m.data, m.magics, more);
      RootReadsEverything([], ms[1..]);
      assert [] + more == more;
      assert Datas(ms) == [m.data] + Datas(ms[1..]);
    }
  }

  /** Messages of more than 8191 bytes never come back: the total size has 13 bits. */
  lemma RoundTripIff(route: Route, data: seq<Byte>, magics: seq<nat>, last: nat)
    requires 0 < |data| && |magics| == FragmentCount(data) && FreshMagics(last, magics, 0)
    ensures Read(Fragments(route, data, 0, magics), last).0 == Done(route, data) <==> |data| <= MESSAGE_MAX
  {
    var q := Fragments(route, data, 0, magics);
    if |data| <= MESSAGE_MAX {
      RoundTrip(route, data, magics, last, []);
      assert q + [] == q;
    } else {
      TooLongStopsShort(route, data, magics, last);
    }
  }

  lemma TooLongStopsShort(route: Route, data: seq<Byte>, magics: seq<nat>, last: nat)
    requires |data| > MESSAGE_MAX && |magics| == FragmentCount(data) && FreshMagics(last, magics, 0)
    ensures var r := Read(Fragments(route, data, 0, magics), last).0;
            r.Done? ==> r.route == route && r.data <= data && |r.data| < |data|
  {
    FragmentsCons(route, data, 0, magics);
    PrefixGrows(data, 0);
    assert Fragments(route, data, 0, magics)[1..] == Fragments(route, data, 1, magics);
    assert [] + Chunk(data, 0) == Prefix(data, 1);
    StopsShort(route, data, 1, magics, magics[0], |data| / 0x1000 % 2 * 0x1000 + |data| % 0x1000);
  }

  lemma CutSize(n: nat)
    requires n > MESSAGE_MAX
    ensures n / 0x1000 % 2 * 0x1000 + n % 0x1000 <= n - 0x2000
    ensures n / 0x1000 % 2 * 0x1000 + n % 0x1000 <= MESSAGE_MAX
  {
  }

  /** While less than the cut-off size has been received there is a next fragment, in sequence. */
  lemma CutFragment(route: Route, data: seq<Byte>, i: nat, magics: seq<nat>, total: nat)
    requires i <= FragmentCount(data) == |magics| && |Prefix(data, i)| < total <= MESSAGE_MAX
    requires total == |data| / 0x1000 % 2 * 0x1000 + |data| % 0x1000 && total < |data|
    ensures i < |magics| && i * PAYLOAD_LEN < total
    ensures var q := Fragments(route, data, i, magics);
            && q[0] == Fragment(route, data, i, magics[i]) && q[0].seqNo == i && TotalSize(q[0]) == total
            && q[1..] == Fragments(route, data, i + 1, magics)
  {
    assert i <= 5;
    FragmentsCons(route, data, i, magics);
  }

  /** With a total size cut off to 13 bits the loop stops at the latest one fragment beyond it. */
  lemma {:induction false} StopsShort(route: Route, data: seq<Byte>, i: nat, magics: seq<nat>, last: nat, total: nat)
    requires |data| > MESSAGE_MAX && 0 < i <= FragmentCount(data) == |magics| && last == magics[i - 1]
    requires FreshMagics(last, magics, i) && total == |data| / 0x1000 % 2 * 0x1000 + |data| % 0x1000
    requires i * PAYLOAD_LEN < total + PAYLOAD_LEN || i == 1
    ensures var r := ReadLoop(Fragments(route, data, i, magics), i, Prefix(data, i), total, route, last).0;
            r.Done? ==> r.route == route && r.data <= data && |r.data| < |data|
    decreases |magics| - i
  {
    CutSize(|data|);
    if |Prefix(data, i)| < total {
      CutFragment(route, data, i, magics, total);
      PrefixGrows(data, i);
      StopsShort(route, data, i + 1, magics, magics[i], total);
    }
  }

  /** Whatever the length, what is read of a message is a prefix of it, and a proper one if the
      message is too long. */
  lemma ReadsPrefix(route: Route, data: seq<Byte>, magics: seq<nat>, last: nat)
    requires |magics| == FragmentCount(data) && FreshMagics(last, magics, 0)
    ensures var r := Read(Fragments(route, data, 0, magics), last).0;
            r.Done? ==> r.route == route && r.data <= data && (|data| > MESSAGE_MAX ==> |r.data| < |data|)
  {
    var q := Fragments(route, data, 0, magics);
    if data == [] {
      assert q == [];
    } else if |data| <= MESSAGE_MAX {
      RoundTripIff(route, data, magics, last);
    } else {
      TooLongStopsShort(route, data, magics, last);
    }
  }

  // ---------- after a loss ----------

  /** What has been received is given up when fragment 0 is expected and another one comes. */
  lemma OutOfSequence(q: seq<Packet>, buf: seq<Byte>, total: nat, route: Route, last: nat)
    requires q != [] && q[0].seqNo != 0 && |buf| < total
    ensures ReadLoop(q, 0, buf, total, route, last) == ReadLoop(q[1..], 0, [], total, q[0].route, last)
    ensures RootReadLoop(q, 0, buf, total, route) == RootReadLoop(q[1..], 0, [], total, q[0].route)
  {
  }

  /** The next message as fragment 0, if need be fragment 1, and packets that start nothing. */
  lemma Opened(route: Route, data: seq<Byte>, magics: seq<nat>, rest: seq<Packet>)
    requires 0 < |data| <= MESSAGE_MAX && |magics| == FragmentCount(data)
    ensures var q := Fragments(route, data, 0, magics) + rest;
            && q[0].seqNo == 0 && q[0].route == route && q[0].magic == magics[0] && TotalSize(q[0]) == |data|
            && q[0].data == Chunk(data, 0)
            && q[1..] == Fragments(route, data, 1, magics) + rest
            && (|data| <= PAYLOAD_LEN ==> Chunk(data, 0) == data && q[1..] == rest)
    ensures |data| > PAYLOAD_LEN ==>
              var q := Fragments(route, data, 1, magics) + rest;
              q != [] && q[0].seqNo == 1 && q[1..] == Fragments(route, data, 2, magics) + rest
    ensures |data| > PAYLOAD_LEN ==> SkippedStart(Fragments(route, data, 2, magics))
  {
    FragmentFields(route, data, 0, magics[0]);
    NextFragment(route, data, 0, magics, rest);
    if |data| > PAYLOAD_LEN {
      FragmentFields(route, data, 1, magics[1]);
      NextFragment(route, data, 1, magics, rest);
      SizeFits(data);
    } else {
      assert Fragments(route, data, 1, magics) + rest == rest;
    }
  }

  /** After a loss in the middle of a message, __mwifi_read keeps fragment 0 of the next one but
      not its place in the sequence: that message is returned if it has a single fragment, and
      otherwise skipped as a whole. */
  lemma ResyncLaw(route: Route, data: seq<Byte>, magics: seq<nat>, last: nat, rest: seq<Packet>,
                  expected: int, buf: seq<Byte>, total: nat, seen: Route)
    requires 0 < |data| <= MESSAGE_MAX && |magics| == FragmentCount(data) && FreshMagics(last, magics, 0)
    requires expected > 0 && |buf| < total
    ensures ReadLoop(Fragments(route, data, 0, magics) + rest, expected, buf, total, seen, last) ==
            if |data| <= PAYLOAD_LEN then (Done(route, data), magics[0], rest) else Read(rest, magics[0])
  {
    Opened(route, data, magics, rest);
    assert [] + Chunk(data, 0) == Chunk(data, 0);
    if |data| > PAYLOAD_LEN {
      OutOfSequence(Fragments(route, data, 1, magics) + rest, Chunk(data, 0), |data|, route, magics[0]);
      SkipsLeftover(Fragments(route, data, 2, magics), rest, |data|, route, magics[0]);
    }
  }

  /** Nothing else being on the way, the message is returned iff it has a single fragment. */
  lemma ResyncRecoversIff(route: Route, data: seq<Byte>, magics: seq<nat>, last: nat,
                          expected: int, buf: seq<Byte>, total: nat, seen: Route)
    requires 0 < |data| <= MESSAGE_MAX && |magics| == FragmentCount(data) && FreshMagics(last, magics, 0)
    requires expected > 0 && |buf| < total
    ensures ReadLoop(Fragments(route, data, 0, magics), expected, buf, total, seen, last).0 == Done(route, data)
            <==> |data| <= PAYLOAD_LEN
  {
    ResyncLaw(route, data, magics, last, [], expected, buf, total, seen);
    assert Fragments(route, data, 0, magics) + [] == Fragments(route, data, 0, magics);
  }

  /** After a loss __mwifi_root_read skips the next message as a whole if it has several
      fragments; a single fragment is kept, and whatever follows is glued to it. */
  lemma RootResyncLaw(route: Route, data: seq<Byte>, magics: seq<nat>, rest: seq<Packet>,
                      expected: int, buf: seq<Byte>, total: nat, seen: Route)
    requires 0 < |data| <= MESSAGE_MAX && |magics| == FragmentCount(data)
    requires expected > 0 && |buf| < total
    ensures RootReadLoop(Fragments(route, data, 0, magics) + rest, expected, buf, total, seen) ==
            if |data| <= PAYLOAD_LEN then RootReadLoop(rest, 0, data, |data|, route) else RootRead(rest)
  {
    Opened(route, data, magics, rest);
    assert [] + Chunk(data, 0) == Chunk(data, 0);
    if |data| > PAYLOAD_LEN {
      OutOfSequence(Fragments(route, data, 1, magics) + rest, Chunk(data, 0), |data|, route, magics[0]);
      RootSkipsLeftover(Fragments(route, data, 2, magics), rest, |data|, route);
    }
  }

  /** In particular two messages of one fragment each come back as one. */
  lemma RootResyncMixes(route: Route, a: seq<Byte>, b: seq<Byte>, ma: seq<nat>, mb: seq<nat>, rest: seq<Packet>,
                        expected: int, buf: seq<Byte>, total: nat, seen: Route)
    requires 0 < |a| <= PAYLOAD_LEN && 0 < |b| <= PAYLOAD_LEN && |ma| == 1 && |mb| == 1
    requires expected > 0 && |buf| < total
    ensures FragmentCount(a) == 1 && FragmentCount(b) == 1
    ensures RootReadLoop(Fragments(route, a, 0, ma) + (Fragments(route, b, 0, mb) + rest), expected, buf, total, seen) ==
            (Done(route, a + b), rest)
  {
    RootResyncLaw(route, a, ma, Fragments(route, b, 0, mb) + rest, expected, buf, total, seen);
    Opened(route, b, mb, rest);
  }

  // ---------- packets that arrive again ----------

  /** Fragments i and following, fragment j being received twice in a row. */
  function Repeating(route: Route, data: seq<Byte>, i: nat, j: nat, magics: seq<nat>): seq<Packet>
    requires i <= j < FragmentCount(data) == |magics|
    decreases j - i
  {
    [Fragment(route, data, i, magics[i])]
    + if i < j then Repeating(route, data, i + 1, j, magics) else Fragments(route, data, j, magics)
  }

  /** The duplicate filter of __mwifi_read comes after the sequence check: a fragment received
      twice in a row costs the message unless it is the last one. */
  lemma RepeatedFragmentIff(route: Route, data: seq<Byte>, j: nat, magics: seq<nat>, last: nat)
    requires 0 < |data| <= MESSAGE_MAX && j < FragmentCount(data) == |magics| && FreshMagics(last, magics, 0)
    ensures Read(Repeating(route, data, 0, j, magics), last).0 == Done(route, data) <==> j + 1 == |magics|
  {
    assert Prefix(data, 0) == [];
    RepeatedFrom(route, data, 0, j, magics, last, 0, NO_ROUTE);
  }

  lemma {:induction false} RepeatedFrom(route: Route, data: seq<Byte>, i: nat, j: nat, magics: seq<nat>, last: nat, total: nat, seen: Route)
    requires 0 < |data| <= MESSAGE_MAX && i <= j < FragmentCount(data) == |magics|
    requires FreshMagics(last, magics, i) && (i > 0 ==> total == |data|)
    ensures var r := ReadLoop(Repeating(route, data, i, j, magics), i, Prefix(data, i), total, seen, last).0;
            r == if j + 1 == |magics| then Done(route, data) else Timeout
    decreases j - i
  {
    PrefixGrows(data, i);
    FirstOfRepeating(route, data, i, j, magics);
    if i < j {
      RepeatedFrom(route, data, i + 1, j, magics, magics[i], |data|, route);
    } else {
      SecondTime(route, data, j, magics);
    }
  }

  lemma FirstOfRepeating(route: Route, data: seq<Byte>, i: nat, j: nat, magics: seq<nat>)
    requires |data| <= MESSAGE_MAX && i <= j < FragmentCount(data) == |magics|
    ensures var q := Repeating(route, data, i, j, magics);
            && q[0] == Fragment(route, data, i, magics[i]) && q[0].seqNo == i && TotalSize(q[0]) == |data|
            && q[1..] == if i < j then Repeating(route, data, i + 1, j, magics) else Fragments(route, data, j, magics)
  {
    SizeFits(data);
  }

  /** Fragment j has been received and is the next packet again. */
  lemma SecondTime(route: Route, data: seq<Byte>, j: nat, magics: seq<nat>)
    requires 0 < |data| <= MESSAGE_MAX && j < FragmentCount(data) == |magics|
    ensures ReadLoop(Fragments(route, data, j, magics), j + 1, Prefix(data, j + 1), |data|, route, magics[j]).0 ==
            if j + 1 == |magics| then Done(route, data) else Timeout
  {
    if j + 1 < |magics| {
      var q := Fragments(route, data, j, magics);
      PrefixGrows(data, j + 1);
      FragmentFields(route, data, j, magics[j]);
      NextFragment(route, data, j, magics, []);
      assert q + [] == q && q[1..] + [] == q[1..];
      assert q[1..] == Fragments(route, data, j + 1, magics);
      if j > 0 {
        LaterFragments(route, data, j + 1, magics);
        SkipsLeftover(q[1..], [], |data|, route, magics[j]);
      } else {
        LaterFragments(route, data, 1, magics);
        NothingStarts(q[1..], -1, |data|, route, magics[0]);
      }
    } else {
      assert Prefix(data, j + 1) == data;
    }
  }

  lemma LaterFragments(route: Route, data: seq<Byte>, i: nat, magics: seq<nat>)
    requires 0 < |data| <= MESSAGE_MAX && 0 < i <= FragmentCount(data) == |magics|
    ensures SkippedStart(Fragments(route, data, i, magics))
  {
    SizeFits(data);
    var q := Fragments(route, data, i, magics);
    forall k | 0 <= k < |q| ensures q[k].seqNo != 0 {
      assert 0 < i + k < 8 && q[k] == Fragment(route, data, i + k, magics[i + k]);
    }
  }

  lemma NothingStarts(q: seq<Packet>, expected: int, total: nat, route: Route, last: nat)
    requires expected < 0 && SkippedStart(q)
    ensures ReadLoop(q, expected, [], total, route, last).0 == Timeout
  {
    if q != [] {
      assert q[0].seqNo != expected;
      SkipsLeftover(q[1..], [], total, q[0].route, last);
      assert q[1..] + [] == q[1..];
    }
  }
}
