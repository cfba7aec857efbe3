/** Multicast over the mesh tree (mwifi.c): each node splits the destination list among its
    children, puts the addresses for a child in front of the payload and lets the child do the
    same. Delivered once to every destination and to nobody else. */
module MwifiMulticast {
  import opened Prelude
  import opened Addresses
  import opened MwifiFragments

  const ADDR_LEN := 6
  const ADDR_ANY := Mac(0xFF, 0xFF, 0xFF, 0xFF, 0xFF, 0xFF)
  const ADDR_BROADCAST := Mac(0xFF, 0xFF, 0xFF, 0xFF, 0xFF, 0xFE)

  /** A node and the subtrees of its children. */
  datatype Tree = Tree(addr: Addr, children: seq<Tree>)

  /** The addresses below a node, children first, as esp_mesh_get_subnet_nodes_list yields them. */
  function Below(children: seq<Tree>): seq<Addr> {
    if children == [] then []
    else [children[0].addr] + Below(children[0].children) + Below(children[1..])
  }

  // ---------- addresses on the wire ----------

  function EncodeAddr(a: Addr): (s: seq<Byte>)
    ensures |s| == ADDR_LEN
  {
    [a.b0, a.b1, a.b2, a.b3, a.b4, a.b5]
  }

  function EncodeAddrs(list: seq<Addr>): (s: seq<Byte>)
    ensures |s| == ADDR_LEN * |list|
  {
    if list == [] then [] else EncodeAddr(list[0]) + EncodeAddrs(list[1..])
  }

  /** The first n addresses of a received message. */
  function DecodeAddrs(s: seq<Byte>, n: nat): (list: seq<Addr>)
    requires ADDR_LEN * n <= |s|
    ensures |list| == n
  {
    if n == 0 then [] else [Mac(s[0], s[1], s[2], s[3], s[4], s[5])] + DecodeAddrs(s[ADDR_LEN..], n - 1)
  }

  lemma {:induction false} AddrsRoundTrip(list: seq<Addr>, payload: seq<Byte>)
    ensures DecodeAddrs(EncodeAddrs(list) + payload, |list|) == list
    ensures (EncodeAddrs(list) + payload)[ADDR_LEN * |list|..] == payload
  {
    if list == [] {
      assert EncodeAddrs(list) + payload == payload;
    } else {
      var s := EncodeAddrs(list) + payload;
      assert s[ADDR_LEN..] == EncodeAddrs(list[1..]) + payload;
      AddrsRoundTrip(list[1..], payload);
    }
  }

  // ---------- one node: mwifi_transmit_write ----------

  /** The inner loop: the addresses of one subnet are taken out of the list. */
  function Extract(list: seq<Addr>, subnet: seq<Addr>, picked: seq<Addr>): (r: (seq<Addr>, seq<Addr>))
    decreases |subnet|
  {
    if subnet == [] || list == [] then (list, picked)
    else if subnet[0] in list then Extract(RemoveFirst(list, subnet[0]), subnet[1..], picked + [subnet[0]])
    else Extract(list, subnet[1..], picked)
  }

  /** transmit_num has 10 bits and is also the index at which addresses are stored: what counts
      in the end is what was stored since it last became 0. */
  function Stored(picked: seq<Addr>): (r: seq<Addr>)
    ensures |r| < 0x400 && |r| <= |picked|
    ensures |picked| < 0x400 ==> r == picked
    decreases |picked|
  {
    if |picked| < 0x400 then picked else Stored(picked[0x400..])
  }

  datatype Send = Send(dest: Addr, route: Route, data: seq<Byte>)

  /** One turn of the loop over the children: the header, the list left over and the message to
      the child, if there is one. */
  function ChildTurn(c: Tree, list: seq<Addr>, route: Route, payload: seq<Byte>): (r: (Route, seq<Addr>, Option<Send>))
  {
    if route.all then
      (route, list, Some(Send(c.addr, route, payload)))
    else
      var (rest, picked) := Extract(RemoveFirst(list, c.addr), Below(c.children), []);
      var stored := Stored(picked);
      var route := route.(self := c.addr in list, num := |stored|);
      (route, rest,
       if route.num > 0 || route.self then Some(Send(c.addr, route, EncodeAddrs(stored) + payload)) else None)
  }

  /** All the turns: header, list left over, messages. `ok` tells to which children sending works;
      the loop ends with the first message that cannot be sent. */
  function ChildTurns(children: seq<Tree>, list: seq<Addr>, route: Route, payload: seq<Byte>, ok: Addr -> bool, sent: seq<Send>)
      : (r: (Route, seq<Addr>, seq<Send>))
    decreases |children|
  {
    if children == [] || list == [] then (route, list, sent)
    else
      var (route', rest, s) := ChildTurn(children[0], list, route, payload);
      if s.Some? && !ok(s.value.dest) then (route', rest, sent)
      else ChildTurns(children[1..], rest, route', payload, ok, sent + if s.Some? then [s.value] else [])
  }

  predicate IsFlood(a: Addr) {
    a == ADDR_ANY || a == ADDR_BROADCAST
  }

  function Entry(list: seq<Addr>, route: Route): Route {
    if list != [] && IsFlood(list[0]) then route.(all := true) else route
  }

  /** What remains is sent directly; with MWIFI_ADDR_ANY the root also sends to itself. */
  function Directs(own: Addr, isRoot: bool, list: seq<Addr>, route: Route): seq<Addr> {
    if list == [] then []
    else if route.all then if list[0] == ADDR_ANY && isRoot then [own] + list[1..] else []
    else list
  }

  // ---------- the network ----------

  datatype Delivery = Delivery(node: Addr, payload: seq<Byte>)

  /** What a reliable link with fresh magics makes of a message. */
  function Carried(route: Route, data: seq<Byte>): (r: ReadResult) {
    Read(Fragments(route, data, 0, seq(FragmentCount(data), i => i + 1)), 0).0
  }

  lemma CarriedExactly(route: Route, data: seq<Byte>)
    requires 0 < |data| <= MESSAGE_MAX
    ensures Carried(route, data) == Done(route, data)
  {
    RoundTripIff(route, data, seq(FragmentCount(data), i => i + 1), 0);
  }

  lemma CarriedPrefix(route: Route, data: seq<Byte>)
    ensures var r := Carried(route, data);
            r.Done? ==> r.route == route && r.data <= data && (|data| > MESSAGE_MAX ==> |r.data| < |data|)
  {
    ReadsPrefix(route, data, seq(FragmentCount(data), i => i + 1), 0);
  }

  function Direct(list: seq<Addr>, payload: seq<Byte>): (s: seq<Delivery>)
    ensures |s| == |list|
  {
    seq(|list|, i requires 0 <= i < |list| => Delivery(list[i], payload))
  }

  /** A node that has read a message forwards it, if it has to, and keeps it, if it is meant. */
  function Receive(c: Tree, r: ReadResult): seq<Delivery>
    decreases c, 1
  {
    if !r.Done? then []
    else
      var kept := r.route.self;
      if r.route.all then
        Transmit(c, false, [ADDR_BROADCAST], r.route, r.data) + if kept then [Delivery(c.addr, r.data)] else []
      else if r.route.num == 0 then
        if kept then [Delivery(c.addr, r.data)] else []
      else if ADDR_LEN * r.route.num > |r.data| then []
      else
        var payload := r.data[ADDR_LEN * r.route.num..];
        Transmit(c, false, DecodeAddrs(r.data, r.route.num), r.route, payload)
        + if kept then [Delivery(c.addr, payload)] else []
  }

  /** The deliveries that follow from mwifi_transmit_write at node t. */
  function Transmit(t: Tree, isRoot: bool, list: seq<Addr>, route: Route, payload: seq<Byte>): seq<Delivery>
    decreases t, 0
  {
    var (got, rest, last) := Spread(t.children, list, Entry(list, route), payload);
    got + Direct(Directs(t.addr, isRoot, rest, last), payload)
  }

  /** The messages to the children and what the children do with them. */
  function Spread(children: seq<Tree>, list: seq<Addr>, route: Route, payload: seq<Byte>)
      : (r: (seq<Delivery>, seq<Addr>, Route))
    decreases children
  {
    if children == [] || list == [] then ([], list, route)
    else
      var (route', rest, s) := ChildTurn(children[0], list, route, payload);
      var got := if s.Some? then Receive(children[0], Carried(s.value.route, s.value.data)) else [];
      var (more, left, last) := Spread(children[1..], rest, route', payload);
      (got + more, left, last)
  }
}
