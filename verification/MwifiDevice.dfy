/** mwifi.c as it runs: the send loop with its retries, the read loops and the splitting of an
    address buffer in place, each proved against the functions of the other two modules. */
module MwifiDevice {
  import opened Prelude
  import opened Addresses
  import opened MwifiFragments
  import opened MwifiMulticast

  /** mwifi_subcontract_write: the packets that go out. `air[i]` are the answers of
      esp_mesh_send for fragment i. */
  method SubcontractWrite(route: Route, data: seq<Byte>, magics: seq<nat>, air: seq<seq<Answer>>)
      returns (sent: seq<Packet>, ok: bool)
    requires |magics| == FragmentCount(data) == |air|
    requires forall i | 0 <= i < |air| :: |air[i]| == SEND_RETRY
    ensures (sent, ok) == MwifiFragments.SubcontractWrite(route, data, 0, magics, air)
    ensures sent <= Fragments(route, data, 0, magics)
    ensures ok <==> sent == Fragments(route, data, 0, magics)
  {
    SubcontractSendsFragments(route, data, 0, magics, air);
    sent := [];
    var i := 0;
    while i < |air|
      invariant i <= |air|
      invariant var all := MwifiFragments.SubcontractWrite(route, data, 0, magics, air);
                var rest := MwifiFragments.SubcontractWrite(route, data, i, magics, air);
                all.0 == sent + rest.0 && all.1 == rest.1
    {
      var out := SendFragment(air[i]);
      if !out {
        assert sent + [] == sent;
        return sent, false;
      }
      var p := Fragment(route, data, i, magics[i]);
      ghost var rest := MwifiFragments.SubcontractWrite(route, data, i + 1, magics, air).0;
      assert sent + ([p] + rest) == sent + [p] + rest;
      sent := sent + [p];
      i := i + 1;
    }
    assert sent + [] == sent;
    return sent, true;
  }

  /** The retries of one fragment. */
  method SendFragment(answers: seq<Answer>) returns (out: bool)
    requires |answers| == SEND_RETRY
    ensures out <==> exists k :: 0 <= k < SEND_RETRY && answers[k] == Sent && forall j | 0 <= j < k :: answers[j] == NoMemory
    ensures out == GetsOut(answers)
  {
    var k := 0;
    while k < SEND_RETRY && answers[k] == NoMemory
      invariant k <= SEND_RETRY && GetsOut(answers[k..]) == GetsOut(answers)
      invariant forall j | 0 <= j < k :: answers[j] == NoMemory
    {
      assert answers[k..][0] == answers[k] && answers[k..][1..] == answers[k + 1..];
      k := k + 1;
    }
    assert k < SEND_RETRY ==> answers[k..][0] == answers[k];
    out := k < SEND_RETRY && answers[k] == Sent;
  }

  /** The receiving side of a node: what has arrived and the static s_data_magic. */
  class Reader {
    var queue: seq<Packet>
    var lastMagic: nat

    constructor ()
      ensures queue == [] && lastMagic == 0
    {
      queue, lastMagic := [], 0;
    }

    /** The inner loop of __mwifi_read, until a message is complete or nothing more arrives. */
    method Read() returns (r: ReadResult)
      modifies this
      ensures (r, lastMagic, queue) == MwifiFragments.Read(old(queue), old(lastMagic))
    {
      var expected, total, route := 0, 0, NO_ROUTE;
      var buf: seq<Byte> := [];
      while buf == [] || |buf| < total
        invariant ReadLoop(queue, expected, buf, total, route, lastMagic) == MwifiFragments.Read(old(queue), old(lastMagic))
        decreases |queue|
      {
        if queue == [] {
          return Timeout;
        }
        var p := queue[0];
        queue, route := queue[1..], p.route;
        if p.seqNo != expected {
          buf, expected := [], -1;
          if p.seqNo != 0 {
            expected := expected + 1;
            continue;
          }
        }
        if p.magic == lastMagic {
          expected := expected - 1 + 1;
          continue;
        }
        lastMagic, total, buf := p.magic, TotalSize(p), buf + p.data;
        expected := expected + 1;
      }
      return Done(route, buf);
    }

    /** The loop of __mwifi_root_read. */
    method RootRead() returns (r: ReadResult)
      modifies this`queue
      ensures (r, queue) == MwifiFragments.RootRead(old(queue))
    {
      var expected, total, route := 0, 0, NO_ROUTE;
      var buf: seq<Byte> := [];
      while expected == 0 || |buf| < total
        invariant RootReadLoop(queue, expected, buf, total, route) == MwifiFragments.RootRead(old(queue))
        decreases |queue|
      {
        if queue == [] {
          return Timeout;
        }
        var p := queue[0];
        queue, route := queue[1..], p.route;
        if p.seqNo != expected {
          buf, expected := [], -1;
          if p.seqNo != 0 {
            expected := expected + 1;
            continue;
          }
        }
        total, buf, expected := TotalSize(p), buf + p.data, expected + 1;
      }
      return Done(route, buf);
    }
  }

  /** The inner loop of mwifi_transmit_write, on the buffer of the addresses left. */
  method ExtractSubnet(list: array<Addr>, num: nat, subnet: seq<Addr>) returns (left: nat, picked: seq<Addr>)
    requires num <= list.Length
    modifies list
    ensures left <= num
    ensures (list[..left], picked) == Extract(old(list[..num]), subnet, [])
  {
    left, picked := num, [];
    var j := 0;
    while j < |subnet| && left > 0
      invariant j <= |subnet| && left <= num
      invariant Extract(list[..left], subnet[j..], picked) == Extract(old(list[..num]), subnet, [])
    {
      var found;
      ghost var before := list[..left];
      ExtractStep(before, subnet, j, picked);
      left, found := AddrsRemove(list, left, subnet[j]);
      if found {
        picked := picked + [subnet[j]];
      }
      j := j + 1;
    }
  }

  lemma ExtractStep(list: seq<Addr>, subnet: seq<Addr>, j: nat, picked: seq<Addr>)
    requires j < |subnet| && list != []
    ensures Extract(list, subnet[j..], picked) ==
            Extract(RemoveFirst(list, subnet[j]), subnet[j + 1..], if subnet[j] in list then picked + [subnet[j]] else picked)
  {
    assert subnet[j..][0] == subnet[j] && subnet[j..][1..] == subnet[j + 1..];
    if subnet[j] !in list {
      NothingRemoved(list, subnet[j]);
    }
  }

  lemma NothingRemoved(list: seq<Addr>, a: Addr)
    requires a !in list
    ensures RemoveFirst(list, a) == list
  {
    RemoveFirstContents(list, a);
  }

  /** One turn of the loop over the children. */
  method TransmitToChild(c: Tree, list: array<Addr>, num: nat, route: Route, payload: seq<Byte>)
      returns (left: nat, route': Route, send: Option<Send>)
    requires num <= list.Length
    modifies list
    ensures left <= num
    ensures (route', list[..left], send) == ChildTurn(c, old(list[..num]), route, payload)
  {
    route', left, send := route, num, None;
    if route.all {
      return left, route, Some(Send(c.addr, route, payload));
    }
    var self, picked;
    left, self := AddrsRemove(list, num, c.addr);
    left, picked := ExtractSubnet(list, left, Below(c.children));
    var stored := Stored(picked);
    route' := route.(self := self, num := |stored|);
    if route'.num > 0 || route'.self {
      send := Some(Send(c.addr, route', EncodeAddrs(stored) + payload));
    }
  }

  /** mwifi_transmit_write: the messages to the children and the addresses sent to directly. */
  method TransmitWrite(children: seq<Tree>, own: Addr, isRoot: bool, list: array<Addr>, num: nat, route: Route, payload: seq<Byte>,
                       ok: Addr -> bool)
      returns (sent: seq<Send>, direct: seq<Addr>)
    requires 0 < num <= list.Length
    modifies list
    ensures var (last, rest, all) := ChildTurns(children, old(list[..num]), Entry(old(list[..num]), route), payload, ok, []);
            sent == all && direct == Directs(own, isRoot, rest, last)
  {
    var left: nat, head := num, route;
    if list[0] == ADDR_ANY || list[0] == ADDR_BROADCAST {
      head := head.(all := true);
    }
    ghost var entry := head;
    sent := [];
    var i := 0;
    var failed := false;
    while i < |children| && left > 0 && !failed
      invariant i <= |children| && left <= num
      invariant if failed then (head, list[..left], sent) == ChildTurns(children, old(list[..num]), entry, payload, ok, [])
                else ChildTurns(children[i..], list[..left], head, payload, ok, sent) ==
                     ChildTurns(children, old(list[..num]), entry, payload, ok, [])
      decreases |children| - i, !failed
    {
      assert children[i..][0] == children[i] && children[i..][1..] == children[i + 1..];
      var send;
      left, head, send := TransmitToChild(children[i], list, left, head, payload);
      failed := send.Some? && !ok(send.value.dest);
      if !failed {
        sent := sent + if send.Some? then [send.value] else [];
        i := i + 1;
      }
    }
    direct := DirectTargets(own, isRoot, list, left, head);
  }

  /** The end of mwifi_transmit_write: whom the node sends to directly. */
  method DirectTargets(own: Addr, isRoot: bool, list: array<Addr>, left: nat, route: Route) returns (direct: seq<Addr>)
    requires left <= list.Length
    modifies list
    ensures direct == Directs(own, isRoot, old(list[..left]), route)
  {
    var all := route.all;
    ghost var rest := list[..left];
    if left > 0 && list[0] == ADDR_ANY && all && isRoot {
      list[0] := own;
      all := false;
      assert list[..left] == [own] + rest[1..];
    }
    return if all then [] else list[..left];
  }
}
