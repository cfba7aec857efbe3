/** Multicast and flooding reach exactly whom they should, once each, with the payload intact. */
module MwifiDelivery {
  import opened Prelude
  import opened Addresses
  import opened MwifiFragments
  import opened MwifiMulticast

  function Receivers(ds: seq<Delivery>): (s: seq<Addr>)
    ensures |s| == |ds|
  {
    seq(|ds|, i requires 0 <= i < |ds| => ds[i].node)
  }

  /** How often node a gets something. */
  ghost function Count(ds: seq<Delivery>, a: Addr): nat {
    multiset(Receivers(ds))[a]
  }

  ghost predicate AllCarry(ds: seq<Delivery>, payload: seq<Byte>) {
    forall i | 0 <= i < |ds| :: ds[i].payload == payload
  }

  lemma CountConcat(x: seq<Delivery>, y: seq<Delivery>, a: Addr)
    ensures Count(x + y, a) == Count(x, a) + Count(y, a)
  {
    assert Receivers(x + y) == Receivers(x) + Receivers(y);
  }

  lemma CountSingle(d: Delivery, a: Addr)
    ensures Count([d], a) == if a == d.node then 1 else 0
  {
    assert Receivers([d]) == [d.node];
  }

  lemma CountDirect(list: seq<Addr>, payload: seq<Byte>, a: Addr)
    requires NoDup(list)
    ensures Count(Direct(list, payload), a) == if a in list then 1 else 0
    ensures AllCarry(Direct(list, payload), payload)
  {
    assert Receivers(Direct(list, payload)) == list;
    assert a in list <==> a in multiset(list);
  }

  // ---------- splitting the list ----------

  /** The inner loop splits the list into what is in the subnet and what is not. */
  lemma {:induction false} ExtractSplits(list: seq<Addr>, subnet: seq<Addr>, picked: seq<Addr>)
    requires NoDup(list) && NoDup(picked) && Disjoint(list, picked)
    ensures var (rest, p) := Extract(list, subnet, picked);
            && NoDup(rest) && NoDup(p) && |rest| + |p| == |list| + |picked|
            && (forall a :: a in rest <==> a in list && a !in subnet)
            && (forall a :: a in p <==> a in picked || (a in list && a in subnet))
    decreases |subnet|
  {
    if subnet != [] && list != [] {
      var a := subnet[0];
      assert forall b :: b in subnet <==> b == a || b in subnet[1..];
      if a in list {
        NoDupRemove(list, a);
        RemoveFirstContents(list, a);
        NoDupAppend(picked, a);
        ExtractSplits(RemoveFirst(list, a), subnet[1..], picked + [a]);
      } else {
        ExtractSplits(list, subnet[1..], picked);
      }
    }
  }

  // ---------- multicast ----------

  /** Room for the addresses in the header and in the message. */
  predicate Fits(list: seq<Addr>, payload: seq<Byte>) {
    0 < |payload| && |list| < 0x400 && |payload| + ADDR_LEN * |list| <= MESSAGE_MAX
  }

  /** The destinations behind a child. */
  ghost function Behind(list: seq<Addr>, c: Tree): set<Addr> {
    set a | a in list && a != c.addr && a in Below(c.children)
  }

  /** The addresses for a child fit the 10 bits of transmit_num, and the message for it, if there
      is one, has at most 8191 bytes. */
  ghost predicate LinkFits(c: Tree, list: seq<Addr>, payload: seq<Byte>) {
    && |Behind(list, c)| < 0x400
    && (c.addr in list || Behind(list, c) != {} ==> |payload| + ADDR_LEN * |Behind(list, c)| <= MESSAGE_MAX)
  }

  ghost predicate LinksFit(children: seq<Tree>, list: seq<Addr>, payload: seq<Byte>) {
    children == [] || (LinkFits(children[0], list, payload) && LinksFit(children[1..], list, payload))
  }

  /** Only the part of the list that is below the children matters. */
  lemma {:induction false} LinksFitSame(children: seq<Tree>, list: seq<Addr>, rest: seq<Addr>, payload: seq<Byte>)
    requires forall a | a in Below(children) :: a in list <==> a in rest
    ensures LinksFit(children, list, payload) <==> LinksFit(children, rest, payload)
  {
    if children != [] {
      var c := children[0];
      assert Below(children) == [c.addr] + Below(c.children) + Below(children[1..]);
      assert c.addr in Below(children) by { assert Below(children)[0] == c.addr; }
      assert Behind(list, c) == Behind(rest, c);
      LinksFitSame(children[1..], list, rest, payload);
    }
  }

  /** What is left over after one child has been served fits the links to the others. */
  lemma RestFits(children: seq<Tree>, list: seq<Addr>, rest: seq<Addr>, payload: seq<Byte>)
    requires children != [] && NoDup(Below(children)) && LinksFit(children, list, payload)
    requires forall a :: a in rest <==> a in list && a != children[0].addr && a !in Below(children[0].children)
    ensures LinksFit(children[1..], rest, payload)
  {
    var here, later := [children[0].addr] + Below(children[0].children), Below(children[1..]);
    assert Below(children) == here + later;
    NoDupConcat(here, later);
    assert forall a :: a in here <==> a == children[0].addr || a in Below(children[0].children);
    LinksFitSame(children[1..], list, rest, payload);
  }

  lemma {:induction false} FitsMeansLinksFit(children: seq<Tree>, list: seq<Addr>, payload: seq<Byte>)
    requires Fits(list, payload) && NoDup(list)
    ensures LinksFit(children, list, payload)
  {
    if children != [] {
      var all := set a | a in list;
      NoDupCard(list, all);
      CardMonotone(Behind(list, children[0]), all);
      FitsMeansLinksFit(children[1..], list, payload);
    }
  }

  lemma {:induction false} CardMonotone(x: set<Addr>, y: set<Addr>)
    requires x <= y
    ensures |x| <= |y|
  {
    if x != {} {
      var a :| a in x;
      CardMonotone(x - {a}, y - {a});
    }
  }

  lemma {:induction false} NoDupCard(list: seq<Addr>, s: set<Addr>)
    requires NoDup(list) && forall a :: a in list <==> a in s
    ensures |list| == |s|
  {
    if list == [] {
      assert s == {};
    } else {
      var a := list[0];
      assert list == [a] + list[1..];
      NoDupConcat([a], list[1..]);
      assert a in [a];
      NoDupCard(list[1..], s - {a});
    }
  }

  ghost predicate Nodes(list: seq<Addr>) {
    forall a | a in list :: !IsFlood(a)
  }

  /** One child: what it does with its message reaches, of the list, exactly the child and what
      is below it. */
  ghost predicate ChildExact(c: Tree, list: seq<Addr>, payload: seq<Byte>, got: seq<Delivery>) {
    && AllCarry(got, payload)
    && forall a :: Count(got, a) == if a in list && (a == c.addr || a in Below(c.children)) then 1 else 0
  }

  /** What one turn takes out of the list and what it leaves. */
  lemma TurnExtracts(c: Tree, list: seq<Addr>) returns (picked: seq<Addr>)
    requires NoDup(list)
    ensures var (rest, all) := Extract(RemoveFirst(list, c.addr), Below(c.children), []);
            && picked == all && NoDup(rest) && NoDup(picked) && |rest| <= |list|
            && (forall a :: a in rest <==> a in list && a != c.addr && a !in Below(c.children))
            && (forall a :: a in picked <==> a in list && a != c.addr && a in Below(c.children))
    ensures |picked| == |Behind(list, c)|
  {
    var some := RemoveFirst(list, c.addr);
    NoDupRemove(list, c.addr);
    RemoveFirstContents(list, c.addr);
    picked := Extract(some, Below(c.children), []).1;
    ExtractSplits(some, Below(c.children), []);
    NoDupCard(picked, Behind(list, c));
  }

  /** The child's turn: the list is split, and the message carries the addresses that were stored. */
  lemma TurnMeaning(c: Tree, list: seq<Addr>, route: Route, payload: seq<Byte>) returns (picked: seq<Addr>)
    requires NoDup(list) && !route.all
    ensures |picked| == |Behind(list, c)|
    ensures var (route', rest, s) := ChildTurn(c, list, route, payload);
            && !route'.all && NoDup(rest) && |rest| <= |list|
            && (forall a :: a in rest <==> a in list && a != c.addr && a !in Below(c.children))
            && NoDup(picked)
            && (forall a :: a in picked <==> a in list && a != c.addr && a in Below(c.children))
            && route'.num == |Stored(picked)| && (route'.self <==> c.addr in list)
            && s == if |Stored(picked)| > 0 || route'.self
                    then Some(Send(c.addr, route', EncodeAddrs(Stored(picked)) + payload)) else None
  {
    picked := TurnExtracts(c, list);
  }

  lemma {:induction false} ChildReaches(c: Tree, list: seq<Addr>, route: Route, payload: seq<Byte>, picked: seq<Addr>)
    requires NoDup([c.addr] + Below(c.children)) && Nodes(Below(c.children))
    requires NoDup(picked) && Fits(picked, payload) && !route.all && route.num == |picked| && |picked| > 0
    requires forall a | a in picked :: a in Below(c.children)
    ensures var got := Receive(c, Carried(route, EncodeAddrs(picked) + payload));
            && AllCarry(got, payload)
            && forall a :: Count(got, a) == if a in picked || (route.self && a == c.addr) then 1 else 0
    decreases c, 1
  {
    var data := EncodeAddrs(picked) + payload;
    CarriedExactly(route, data);
    AddrsRoundTrip(picked, payload);
    NoDupConcat([c.addr], Below(c.children));
    assert picked[0] in picked;
    FitsMeansLinksFit(c.children, picked, payload);
    SpreadExact(c.children, picked, route, payload);
    var (got, rest, last) := Spread(c.children, picked, route, payload);
    NobodyLeft(rest);
    assert Transmit(c, false, picked, route, payload) == got + Direct([], payload);
    assert got + Direct([], payload) == got;
    var kept := if route.self then [Delivery(c.addr, payload)] else [];
    assert Receive(c, Carried(route, data)) == got + kept;
    assert c.addr in [c.addr];
    forall a ensures Count(got + kept, a) == if a in picked || (route.self && a == c.addr) then 1 else 0 {
      CountConcat(got, kept, a);
      if route.self {
        CountSingle(Delivery(c.addr, payload), a);
      }
    }
  }

  lemma {:induction false} ChildTurnExact(c: Tree, list: seq<Addr>, route: Route, payload: seq<Byte>)
    requires NoDup([c.addr] + Below(c.children)) && Nodes(Below(c.children))
    requires NoDup(list) && 0 < |payload| && LinkFits(c, list, payload) && !route.all
    ensures var (route', rest, s) := ChildTurn(c, list, route, payload);
            && !route'.all && NoDup(rest) && |rest| <= |list|
            && (forall a :: a in rest <==> a in list && a != c.addr && a !in Below(c.children))
            && ChildExact(c, list, payload, if s.Some? then Receive(c, Carried(s.value.route, s.value.data)) else [])
    decreases c, 2
  {
    var picked := TurnMeaning(c, list, route, payload);
    var (route', rest, s) := ChildTurn(c, list, route, payload);
    NoDupConcat([c.addr], Below(c.children));
    assert c.addr in [c.addr];
    if |picked| > 0 {
      ChildReaches(c, list, route', payload, picked);
    } else if route'.self {
      assert EncodeAddrs(picked) + payload == payload;
      CarriedExactly(route', payload);
      forall a ensures Count([Delivery(c.addr, payload)], a) == if a == c.addr then 1 else 0 {
        CountSingle(Delivery(c.addr, payload), a);
      }
      EmptyPicked(picked);
    } else {
      EmptyPicked(picked);
    }
  }

  lemma EmptyPicked(picked: seq<Addr>)
    requires picked == []
    ensures forall a :: a !in picked
  {
  }

  lemma {:induction false} SpreadExact(children: seq<Tree>, list: seq<Addr>, route: Route, payload: seq<Byte>)
    requires NoDup(Below(children)) && Nodes(Below(children))
    requires NoDup(list) && 0 < |payload| && LinksFit(children, list, payload) && !route.all
    ensures var (got, rest, last) := Spread(children, list, route, payload);
            && !last.all && AllCarry(got, payload) && NoDup(rest)
            && (forall a :: Count(got, a) == if a in list && a in Below(children) then 1 else 0)
            && (forall a :: a in rest <==> a in list && a !in Below(children))
    decreases children, 0
  {
    if children != [] && list != [] {
      var c := children[0];
      var here, later := [c.addr] + Below(c.children), Below(children[1..]);
      assert Below(children) == here + later;
      NoDupConcat(here, later);
      InCons(c.addr, Below(c.children));
      ChildTurnExact(c, list, route, payload);
      var (route', rest, s) := ChildTurn(c, list, route, payload);
      RestFits(children, list, rest, payload);
      SpreadExact(children[1..], rest, route', payload);
      var got := if s.Some? then Receive(c, Carried(s.value.route, s.value.data)) else [];
      var (more, left, last) := Spread(children[1..], rest, route', payload);
      SplitBoth(list, rest, left, here, later, got, more);
      assert Spread(children, list, route, payload) == (got + more, left, last);
    }
  }

  lemma InCons(x: Addr, xs: seq<Addr>)
    ensures forall a :: a in [x] + xs <==> a == x || a in xs
  {
  }

  lemma SplitBoth(list: seq<Addr>, rest: seq<Addr>, left: seq<Addr>, here: seq<Addr>, later: seq<Addr>,
                  got: seq<Delivery>, more: seq<Delivery>)
    requires Disjoint(here, later)
    requires forall a :: a in rest <==> a in list && a !in here
    requires forall a :: a in left <==> a in rest && a !in later
    requires forall a :: Count(got, a) == if a in list && a in here then 1 else 0
    requires forall a :: Count(more, a) == if a in rest && a in later then 1 else 0
    ensures forall a :: Count(got + more, a) == if a in list && a in here + later then 1 else 0
    ensures forall a :: a in left <==> a in list && a !in here + later
  {
    forall a ensures Count(got + more, a) == if a in list && a in here + later then 1 else 0 {
      CountConcat(got, more, a);
    }
  }

  /** Multicast exactly once: whatever the tree, each address of a duplicate-free list gets the
      payload unchanged and once, nobody else gets anything, and it is the addresses outside the
      tree (the root's own included) that are sent to directly. */
  lemma MulticastExact(t: Tree, list: seq<Addr>, route: Route, payload: seq<Byte>)
    requires NoDup(Below(t.children)) && Nodes(Below(t.children))
    requires NoDup(list) && Nodes(list) && !route.all
    requires 0 < |payload| <= MESSAGE_MAX && LinksFit(t.children, list, payload)
    ensures var got := Transmit(t, true, list, route, payload);
            && AllCarry(got, payload)
            && forall a :: Count(got, a) == if a in list then 1 else 0
    ensures var (got, rest, last) := Spread(t.children, list, route, payload);
            && (forall a :: a in Directs(t.addr, true, rest, last) <==> a in list && a !in Below(t.children))
            && (forall a :: Count(got, a) == if a in list && a in Below(t.children) then 1 else 0)
  {
    SpreadExact(t.children, list, route, payload);
    var (got, rest, last) := Spread(t.children, list, route, payload);
    if list != [] {
      assert list[0] in list;
    }
    NoFlood(rest, list);
    assert Transmit(t, true, list, route, payload) == got + Direct(rest, payload);
    TreeAndDirect(got, list, rest, Below(t.children), payload);
  }

  lemma NoFlood(rest: seq<Addr>, list: seq<Addr>)
    requires Nodes(list) && forall a | a in rest :: a in list
    ensures rest != [] ==> !IsFlood(rest[0])
  {
    assert rest != [] ==> rest[0] in rest;
  }

  /** What the tree delivers and what is sent directly, together. */
  lemma TreeAndDirect(got: seq<Delivery>, list: seq<Addr>, rest: seq<Addr>, below: seq<Addr>, payload: seq<Byte>)
    requires AllCarry(got, payload) && NoDup(rest) && forall a :: a in rest <==> a in list && a !in below
    requires forall a :: Count(got, a) == if a in list && a in below then 1 else 0
    ensures AllCarry(got + Direct(rest, payload), payload)
    ensures forall a :: Count(got + Direct(rest, payload), a) == if a in list then 1 else 0
  {
    forall a ensures Count(got + Direct(rest, payload), a) == if a in list then 1 else 0 {
      CountConcat(got, Direct(rest, payload), a);
      CountDirect(rest, payload, a);
    }
  }

  // ---------- messages that are too long ----------

  /** Only addresses of the list are reached, and payloads never grow. */
  ghost predicate Within(got: seq<Delivery>, list: seq<Addr>, limit: nat) {
    forall i | 0 <= i < |got| :: got[i].node in list && |got[i].payload| <= limit
  }

  function Kept(c: Tree, route: Route): seq<Addr> {
    if route.self then [c.addr] else []
  }

  lemma {:induction false} ReceiveWithin(c: Tree, picked: seq<Addr>, route: Route, payload: seq<Byte>)
    requires !route.all && route.num == |picked| && Nodes(picked)
    ensures var data := EncodeAddrs(picked) + payload;
            var got := Receive(c, Carried(route, data));
            && Within(got, picked + Kept(c, route), |payload|)
            && (|data| > MESSAGE_MAX ==> forall i | 0 <= i < |got| :: |got[i].payload| < |payload|)
    decreases c, 1
  {
    var data := EncodeAddrs(picked) + payload;
    var r := Carried(route, data);
    CarriedPrefix(route, data);
    if r.Done? && route.num > 0 && ADDR_LEN * route.num <= |r.data| {
      var rest := PrefixRest(picked, payload, r.data);
      ForwardWithin(c, picked, route, rest);
      AddrsRoundTrip(picked, rest);
    }
  }

  lemma PrefixRest(picked: seq<Addr>, payload: seq<Byte>, data: seq<Byte>) returns (rest: seq<Byte>)
    requires data <= EncodeAddrs(picked) + payload && ADDR_LEN * |picked| <= |data|
    ensures data == EncodeAddrs(picked) + rest && |rest| == |data| - ADDR_LEN * |picked|
  {
    rest := data[|EncodeAddrs(picked)|..];
  }

  lemma {:induction false} ForwardWithin(c: Tree, picked: seq<Addr>, route: Route, payload: seq<Byte>)
    requires !route.all && Nodes(picked) && picked != []
    ensures Within(Transmit(c, false, picked, route, payload), picked, |payload|)
    decreases c, 0
  {
    assert picked[0] in picked;
    SpreadWithin(c.children, picked, route, payload);
    var (got, rest, last) := Spread(c.children, picked, route, payload);
    assert Transmit(c, false, picked, route, payload) == got + Direct(rest, payload);
  }

  lemma {:induction false} SpreadWithin(children: seq<Tree>, list: seq<Addr>, route: Route, payload: seq<Byte>)
    requires !route.all && Nodes(list)
    ensures var (got, rest, last) := Spread(children, list, route, payload);
            && !last.all && Within(got, list, |payload|) && forall a | a in rest :: a in list
    decreases children, 0
  {
    if children != [] && list != [] {
      var c := children[0];
      var (route', rest, s) := ChildTurn(c, list, route, payload);
      var stored := TurnWithin(c, list, route, payload);
      ReceiveWithin(c, stored, route', payload);
      SpreadWithin(children[1..], rest, route', payload);
      var got := if s.Some? then Receive(c, Carried(s.value.route, s.value.data)) else [];
      var more := Spread(children[1..], rest, route', payload).0;
      WithinBoth(got, more, stored + Kept(c, route'), rest, list, |payload|);
    }
  }

  lemma WithinBoth(got: seq<Delivery>, more: seq<Delivery>, here: seq<Addr>, rest: seq<Addr>, list: seq<Addr>, limit: nat)
    requires Within(got, here, limit) && Within(more, rest, limit)
    requires (forall a | a in here :: a in list) && forall a | a in rest :: a in list
    ensures Within(got + more, list, limit)
  {
  }

  lemma TurnWithin(c: Tree, list: seq<Addr>, route: Route, payload: seq<Byte>) returns (stored: seq<Addr>)
    requires !route.all
    ensures var (route', rest, s) := ChildTurn(c, list, route, payload);
            && !route'.all && route'.num == |stored| && (route'.self <==> c.addr in list)
            && (s.Some? ==> s.value == Send(c.addr, route', EncodeAddrs(stored) + payload))
            && (forall a | a in stored :: a in list) && (forall a | a in rest :: a in list)
  {
    var some := RemoveFirst(list, c.addr);
    RemoveFirstWithin(list, c.addr);
    var (rest, picked) := Extract(some, Below(c.children), []);
    ExtractWithin(some, Below(c.children), []);
    stored := Stored(picked);
    StoredWithin(picked);
  }

  lemma RemoveFirstWithin(list: seq<Addr>, a: Addr)
    ensures forall b | b in RemoveFirst(list, a) :: b in list
  {
    RemoveFirstContents(list, a);
    forall b | b in RemoveFirst(list, a) ensures b in list {
      assert b in multiset(RemoveFirst(list, a));
    }
  }

  lemma {:induction false} ExtractWithin(list: seq<Addr>, subnet: seq<Addr>, picked: seq<Addr>)
    ensures var (rest, p) := Extract(list, subnet, picked);
            (forall a | a in rest :: a in list) && forall a | a in p :: a in picked || a in list
    decreases |subnet|
  {
    if subnet != [] && list != [] {
      RemoveFirstWithin(list, subnet[0]);
      ExtractWithin(RemoveFirst(list, subnet[0]), subnet[1..], picked + [subnet[0]]);
      ExtractWithin(list, subnet[1..], picked);
    }
  }

  ghost predicate Gets(got: seq<Delivery>, a: Addr, payload: seq<Byte>) {
    Delivery(a, payload) in got
  }

  /** Whom a child that does not get all its addresses, or whose message is too long, leaves out. */
  lemma LeftOut(c: Tree, list: seq<Addr>, route: Route, payload: seq<Byte>) returns (a: Addr)
    requires NoDup(list) && Nodes(list) && 0 < |payload| && !route.all && !LinkFits(c, list, payload)
    ensures a in list && (a == c.addr || a in Below(c.children))
    ensures var (route', rest, s) := ChildTurn(c, list, route, payload);
            && !route'.all && a !in rest
            && !Gets(if s.Some? then Receive(c, Carried(s.value.route, s.value.data)) else [], a, payload)
  {
    var picked := TurnMeaning(c, list, route, payload);
    var stored := Stored(picked);
    var route' := ChildTurn(c, list, route, payload).0;
    StoredIsSuffix(picked);
    assert forall b | b in stored :: !IsFlood(b);
    ReceiveWithin(c, stored, route', payload);
    if |picked| > 0 {
      a := picked[0];
      assert a in picked;
    } else {
      a := c.addr;
      assert Behind(list, c) == {};
    }
  }

  /** When the counter wraps around, the address stored first is overwritten. */
  lemma StoredIsSuffix(picked: seq<Addr>)
    requires NoDup(picked)
    ensures forall b | b in Stored(picked) :: b in picked
    ensures |picked| >= 0x400 ==> picked[0] !in Stored(picked)
  {
    StoredWithin(picked);
    if |picked| >= 0x400 {
      StoredWithin(picked[0x400..]);
      FirstAlone(picked);
      assert picked[0x400..] == picked[1..][0x3FF..];
    }
  }

  lemma {:induction false} StoredWithin(picked: seq<Addr>)
    ensures forall b | b in Stored(picked) :: b in picked
    ensures |Stored(picked)| == |picked| % 0x400
    decreases |picked|
  {
    if |picked| >= 0x400 {
      StoredWithin(picked[0x400..]);
    }
  }

  lemma FirstAlone(picked: seq<Addr>)
    requires NoDup(picked) && picked != []
    ensures picked[0] !in picked[1..]
  {
    assert [picked[0]] + picked[1..] == picked;
    NoDupConcat([picked[0]], picked[1..]);
    assert picked[0] in [picked[0]];
  }

  /** If the turn of a child does not fit, somebody who should get the payload does not. */
  lemma {:induction false} TooLongMisses(children: seq<Tree>, list: seq<Addr>, route: Route, payload: seq<Byte>) returns (a: Addr)
    requires NoDup(Below(children)) && NoDup(list) && Nodes(list) && 0 < |payload| && !route.all
    requires !LinksFit(children, list, payload) && list != []
    ensures a in list && a in Below(children) && !Gets(Spread(children, list, route, payload).0, a, payload)
    decreases children
  {
    var c := children[0];
    var here, later := [c.addr] + Below(c.children), Below(children[1..]);
    assert Below(children) == here + later;
    NoDupConcat(here, later);
    assert forall b :: b in here <==> b == c.addr || b in Below(c.children);
    var (route', rest, s) := ChildTurn(c, list, route, payload);
    var got := if s.Some? then Receive(c, Carried(s.value.route, s.value.data)) else [];
    var more := Spread(children[1..], rest, route', payload).0;
    if LinkFits(c, list, payload) {
      var picked := TurnMeaning(c, list, route, payload);
        assert forall b | b in picked :: !IsFlood(b);
      ReceiveWithin(c, picked, route', payload);
      LinksFitSame(children[1..], list, rest, payload);
      if rest == [] {
        NothingFits(children[1..], rest, payload);
        assert false;
      }
      a := TooLongMisses(children[1..], rest, route', payload);
      assert a !in picked + Kept(c, route');
    } else {
      a := LeftOut(c, list, route, payload);
      var _ := TurnWithin(c, list, route, payload);
      SpreadWithin(children[1..], rest, route', payload);
    }
  }

  lemma {:induction false} NothingFits(children: seq<Tree>, list: seq<Addr>, payload: seq<Byte>)
    requires list == []
    ensures LinksFit(children, list, payload)
  {
    if children != [] {
      assert Behind(list, children[0]) == {};
      NothingFits(children[1..], list, payload);
    }
  }

  /** Multicast over the tree works if and only if for each child of the root there are at most
      1023 addresses behind it and its message, these addresses included, has at most 8191 bytes. */
  lemma MulticastIff(t: Tree, list: seq<Addr>, route: Route, payload: seq<Byte>)
    requires NoDup(Below(t.children)) && Nodes(Below(t.children))
    requires NoDup(list) && Nodes(list) && 0 < |payload| && !route.all
    ensures (forall a | a in list && a in Below(t.children) :: Gets(Spread(t.children, list, route, payload).0, a, payload))
            <==> LinksFit(t.children, list, payload)
  {
    var got := Spread(t.children, list, route, payload).0;
    if LinksFit(t.children, list, payload) {
      SpreadExact(t.children, list, route, payload);
      forall a | a in list && a in Below(t.children) ensures Gets(got, a, payload) {
        assert Count(got, a) == 1;
        CountedGets(got, a, payload);
      }
    } else {
      if list == [] {
        NothingFits(t.children, list, payload);
        assert false;
      }
      var a := TooLongMisses(t.children, list, route, payload);
    }
  }

  lemma CountedGets(got: seq<Delivery>, a: Addr, payload: seq<Byte>)
    requires AllCarry(got, payload) && Count(got, a) > 0
    ensures Gets(got, a, payload)
  {
    assert a in multiset(Receivers(got));
    var i :| 0 <= i < |got| && Receivers(got)[i] == a;
    assert got[i] == Delivery(a, payload);
  }

  // ---------- flooding ----------

  lemma {:induction false} FloodSpread(children: seq<Tree>, list: seq<Addr>, route: Route, payload: seq<Byte>)
    requires NoDup(Below(children)) && route.all && route.self && 0 < |payload| <= MESSAGE_MAX && list != []
    ensures var (got, rest, last) := Spread(children, list, route, payload);
            && rest == list && last == route && AllCarry(got, payload)
            && forall a :: Count(got, a) == if a in Below(children) then 1 else 0
    decreases children
  {
    if children != [] {
      var c := children[0];
      var here, later := [c.addr] + Below(c.children), Below(children[1..]);
      assert Below(children) == here + later;
      NoDupConcat(here, later);
      NoDupConcat([c.addr], Below(c.children));
      assert c.addr in [c.addr];
      CarriedExactly(route, payload);
      FloodSpread(c.children, [ADDR_BROADCAST], route, payload);
      FloodSpread(children[1..], list, route, payload);
      var (down, rest, last) := Spread(c.children, [ADDR_BROADCAST], route, payload);
      var more := Spread(children[1..], list, route, payload).0;
      var kept := [Delivery(c.addr, payload)];
      assert down + Direct([], payload) == down;
      assert Receive(c, Carried(route, payload)) == down + kept;
      forall a ensures Count(down + kept + more, a) == if a in Below(children) then 1 else 0 {
        CountConcat(down + kept, more, a);
        CountConcat(down, kept, a);
        CountSingle(kept[0], a);
      }
    }
  }

  /** Flooding starts exactly with MWIFI_ADDR_ANY or MWIFI_ADDR_BROADCAST as the first destination,
      or goes on if the header says so. */
  lemma FloodsIff(list: seq<Addr>, route: Route)
    requires list != []
    ensures Entry(list, route).all <==> route.all || list[0] == ADDR_ANY || list[0] == ADDR_BROADCAST
    ensures Entry(list, route).self == route.self && Entry(list, route).num == route.num
  {
  }

  /** Flooding: every node below gets the payload once. With MWIFI_ADDR_ANY the root gets it as
      well, and then so does, directly, whoever is listed behind it, even if that is once more. */
  lemma FloodExact(t: Tree, isRoot: bool, dest: Addr, others: seq<Addr>, route: Route, payload: seq<Byte>)
    requires NoDup(Below(t.children)) && (dest == ADDR_ANY || dest == ADDR_BROADCAST)
    requires route.self && 0 < |payload| <= MESSAGE_MAX
    ensures var got := Transmit(t, isRoot, [dest] + others, route, payload);
            && AllCarry(got, payload)
            && forall a :: Count(got, a) ==
                 (if a in Below(t.children) then 1 else 0)
                 + if isRoot && dest == ADDR_ANY then (if a == t.addr then 1 else 0) + multiset(others)[a] else 0
  {
    var list, flood := [dest] + others, route.(all := true);
    FloodSpread(t.children, list, flood, payload);
    var got := Spread(t.children, list, flood, payload).0;
    var direct := Directs(t.addr, isRoot, list, flood);
    assert list[1..] == others;
    assert direct == if isRoot && dest == ADDR_ANY then [t.addr] + others else [];
    assert Transmit(t, isRoot, list, route, payload) == got + Direct(direct, payload);
    AndDirectly(got, direct, payload);
  }

  lemma AndDirectly(got: seq<Delivery>, direct: seq<Addr>, payload: seq<Byte>)
    requires AllCarry(got, payload)
    ensures AllCarry(got + Direct(direct, payload), payload)
    ensures forall a :: Count(got + Direct(direct, payload), a) == Count(got, a) + multiset(direct)[a]
  {
    assert Receivers(Direct(direct, payload)) == direct;
    forall a ensures Count(got + Direct(direct, payload), a) == Count(got, a) + multiset(direct)[a] {
      CountConcat(got, Direct(direct, payload), a);
    }
  }

  // ---------- the limit of 1023 addresses ----------

  /** With a multiple of 1024 destinations behind a child that is not one itself, the 10-bit
      counter is 0 again and the child gets no message at all. */
  lemma TenBitsLoseEverything(c: Tree, list: seq<Addr>, route: Route, payload: seq<Byte>)
    requires !route.all && c.addr !in list && NoDup(list) && |list| % 0x400 == 0
    requires forall a | a in list :: a in Below(c.children)
    ensures ChildTurn(c, list, route, payload).1 == [] && ChildTurn(c, list, route, payload).2.None?
  {
    RemoveFirstContents(list, c.addr);
    ExtractSplits(list, Below(c.children), []);
    NobodyLeft(Extract(list, Below(c.children), []).0);
    StoredWithin(Extract(list, Below(c.children), []).1);
  }

  // ---------- the code of one node and the network ----------

  /** What happens to the messages of one node: each is read by the child it is addressed to. */
  function Reactions(children: seq<Tree>, sent: seq<Send>): seq<Delivery>
    decreases |children|
  {
    if children == [] || sent == [] then []
    else if sent[0].dest == children[0].addr then
      Receive(children[0], Carried(sent[0].route, sent[0].data)) + Reactions(children[1..], sent[1..])
    else Reactions(children[1..], sent)
  }

  lemma {:induction false} TurnsAppend(children: seq<Tree>, list: seq<Addr>, route: Route, payload: seq<Byte>,
                                       ok: Addr -> bool, sent: seq<Send>)
    ensures var (last, rest, all) := ChildTurns(children, list, route, payload, ok, sent);
            var (last', rest', more) := ChildTurns(children, list, route, payload, ok, []);
            last == last' && rest == rest' && all == sent + more
    decreases |children|
  {
    if children != [] && list != [] {
      var (route', rest, s) := ChildTurn(children[0], list, route, payload);
      if s.None? || ok(s.value.dest) {
        var one := if s.Some? then [s.value] else [];
        TurnsAppend(children[1..], rest, route', payload, ok, sent + one);
        TurnsAppend(children[1..], rest, route', payload, ok, one);
        SendsAssociative(sent, one, ChildTurns(children[1..], rest, route', payload, ok, []).2);
      }
    }
  }

  lemma SendsAssociative(x: seq<Send>, y: seq<Send>, z: seq<Send>)
    ensures x + y + z == x + (y + z) && [] + y == y
  {
  }

  ghost predicate AddressedTo(sent: seq<Send>, list: seq<Addr>) {
    forall i | 0 <= i < |sent| :: sent[i].dest in list
  }

  /** The network semantics used above follows from what mwifi_transmit_write sends. */
  lemma {:induction false} SpreadFollowsTurns(children: seq<Tree>, list: seq<Addr>, route: Route, payload: seq<Byte>, ok: Addr -> bool)
    requires NoDup(Below(children)) && forall i | 0 <= i < |children| :: ok(children[i].addr)
    ensures var (last, rest, sent) := ChildTurns(children, list, route, payload, ok, []);
            && Spread(children, list, route, payload) == (Reactions(children, sent), rest, last)
            && AddressedTo(sent, Below(children))
    decreases |children|
  {
    if children != [] && list != [] {
      var (route', rest, s) := ChildTurn(children[0], list, route, payload);
      var _, _ := BelowFirst(children);
      SpreadFollowsTurns(children[1..], rest, route', payload, ok);
      FirstTurn(children, list, route, payload, ok);
    }
  }

  /** The turn of the first child, if its message can be sent, and the others. */
  lemma FirstTurn(children: seq<Tree>, list: seq<Addr>, route: Route, payload: seq<Byte>, ok: Addr -> bool)
    requires NoDup(Below(children)) && children != [] && list != []
    requires var (route', rest, s) := ChildTurn(children[0], list, route, payload);
             && (s.Some? ==> ok(s.value.dest))
             && AddressedTo(ChildTurns(children[1..], rest, route', payload, ok, []).2, Below(children[1..]))
    ensures var (route', rest, s) := ChildTurn(children[0], list, route, payload);
            var (last, left, sent) := ChildTurns(children[1..], rest, route', payload, ok, []);
            var (last', left', sent') := ChildTurns(children, list, route, payload, ok, []);
            && last' == last && left' == left
            && AddressedTo(sent', Below(children))
            && Reactions(children, sent') ==
                 (if s.Some? then Receive(children[0], Carried(s.value.route, s.value.data)) else [])
                 + Reactions(children[1..], sent)
  {
    var here, later := BelowFirst(children);
    var (route', rest, s) := ChildTurn(children[0], list, route, payload);
    var one := if s.Some? then [s.value] else [];
    TurnsFirst(children, list, route, payload, ok);
    ReactionsFirst(children, one, ChildTurns(children[1..], rest, route', payload, ok, []).2);
  }

  lemma TurnsFirst(children: seq<Tree>, list: seq<Addr>, route: Route, payload: seq<Byte>, ok: Addr -> bool)
    requires children != [] && list != []
    requires var s := ChildTurn(children[0], list, route, payload).2; s.Some? ==> ok(s.value.dest)
    ensures var (route', rest, s) := ChildTurn(children[0], list, route, payload);
            var (last, left, sent) := ChildTurns(children[1..], rest, route', payload, ok, []);
            ChildTurns(children, list, route, payload, ok, []) == (last, left, (if s.Some? then [s.value] else []) + sent)
  {
    var (route', rest, s) := ChildTurn(children[0], list, route, payload);
    var one := if s.Some? then [s.value] else [];
    assert [] + one == one;
    TurnsAppend(children[1..], rest, route', payload, ok, one);
  }

  lemma ReactionsFirst(children: seq<Tree>, one: seq<Send>, sent: seq<Send>)
    requires children != [] && |one| <= 1 && (one != [] ==> one[0].dest == children[0].addr)
    requires AddressedTo(sent, Below(children[1..])) && children[0].addr !in Below(children[1..])
    ensures Reactions(children, one + sent) ==
            (if one == [] then [] else Receive(children[0], Carried(one[0].route, one[0].data)))
            + Reactions(children[1..], sent)
  {
    if one == [] {
      assert one + sent == sent;
    } else {
      assert (one + sent)[1..] == sent;
    }
  }

  // ---------- a child that cannot be reached ----------

  /** The child whose message could not be sent, and what is below it. */
  ghost predicate Lost(lost: Option<Tree>, a: Addr) {
    lost.Some? && (a == lost.value.addr || a in Below(lost.value.children))
  }

  /** Everyone on the list has been reached once or is still on it, except for the lost ones. */
  ghost predicate ReachedOrLeft(got: seq<Delivery>, left: seq<Addr>, list: seq<Addr>, lost: Option<Tree>) {
    forall a :: Count(got, a) + (if a in left then 1 else 0) == if a in list && !Lost(lost, a) then 1 else 0
  }

  /** The outcome of the loop over the children. */
  ghost predicate TurnsOutcome(children: seq<Tree>, list: seq<Addr>, payload: seq<Byte>, ok: Addr -> bool,
                               turns: (Route, seq<Addr>, seq<Send>), lost: Option<Tree>) {
    var (last, left, sent) := turns;
    && (lost.Some? ==> lost.value in children && !ok(lost.value.addr))
    && !last.all && AddressedTo(sent, Below(children)) && AllCarry(Reactions(children, sent), payload)
    && NoDup(left) && (forall a | a in left :: a in list)
    && ReachedOrLeft(Reactions(children, sent), left, list, lost)
  }

  /** When a message to a child cannot be sent, the loop ends there and what is left of the list
      is sent to directly: only that child and the nodes below it miss the payload. */
  lemma {:induction false} TurnsWithFailure(children: seq<Tree>, list: seq<Addr>, route: Route, payload: seq<Byte>, ok: Addr -> bool)
      returns (lost: Option<Tree>)
    requires NoDup(Below(children)) && Nodes(Below(children))
    requires NoDup(list) && 0 < |payload| && LinksFit(children, list, payload) && !route.all
    ensures TurnsOutcome(children, list, payload, ok, ChildTurns(children, list, route, payload, ok, []), lost)
    decreases |children|
  {
    if children == [] || list == [] {
      lost := None;
      NobodyReached(children);
    } else {
      var (route', rest, s) := ChildTurn(children[0], list, route, payload);
      if s.Some? && !ok(s.value.dest) {
        lost := FailedTurn(children, list, route, payload, ok);
      } else {
        var here, later := BelowFirst(children);
        var got := FirstChild(children, list, route, payload, here);
        lost := TurnsWithFailure(children[1..], rest, route', payload, ok);
        FirstTurn(children, list, route, payload, ok);
        var turns := ChildTurns(children[1..], rest, route', payload, ok, []);
        OutcomeFirst(children, list, rest, payload, ok, got, turns, ChildTurns(children, list, route, payload, ok, []).2, lost);
      }
    }
  }

  lemma FailedTurn(children: seq<Tree>, list: seq<Addr>, route: Route, payload: seq<Byte>, ok: Addr -> bool)
      returns (lost: Option<Tree>)
    requires NoDup(Below(children)) && Nodes(Below(children)) && children != [] && list != []
    requires NoDup(list) && 0 < |payload| && LinksFit(children, list, payload) && !route.all
    requires var s := ChildTurn(children[0], list, route, payload).2; s.Some? && !ok(s.value.dest)
    ensures TurnsOutcome(children, list, payload, ok, ChildTurns(children, list, route, payload, ok, []), lost)
  {
    var here, later := BelowFirst(children);
    var _ := FirstChild(children, list, route, payload, here);
    NobodyReached(children);
    lost := Some(children[0]);
  }

  /** The outcome for all children from that for all but the first. */
  lemma OutcomeFirst(children: seq<Tree>, list: seq<Addr>, rest: seq<Addr>, payload: seq<Byte>, ok: Addr -> bool, got: seq<Delivery>,
                     turns: (Route, seq<Addr>, seq<Send>), sent: seq<Send>, lost: Option<Tree>)
    requires children != [] && NoDup(Below(children)) && AllCarry(got, payload)
    requires forall a :: a in rest <==> a in list && a != children[0].addr && a !in Below(children[0].children)
    requires ChildExact(children[0], list, payload, got)
    requires TurnsOutcome(children[1..], rest, payload, ok, turns, lost)
    requires AddressedTo(sent, Below(children)) && Reactions(children, sent) == got + Reactions(children[1..], turns.2)
    ensures TurnsOutcome(children, list, payload, ok, (turns.0, turns.1, sent), lost)
  {
    var here, later := BelowFirst(children);
    LostBelow(children[1..], lost);
    ReachedFirst(list, rest, turns.1, here, got, Reactions(children[1..], turns.2), lost);
  }

  lemma {:induction false} LostBelow(children: seq<Tree>, lost: Option<Tree>)
    requires lost.Some? ==> lost.value in children
    ensures forall a | Lost(lost, a) :: a in Below(children)
    decreases |children|
  {
    if lost.Some? {
      if lost.value != children[0] {
        LostBelow(children[1..], lost);
      }
      assert Below(children) == [children[0].addr] + Below(children[0].children) + Below(children[1..]);
      assert children[0].addr in [children[0].addr];
    }
  }

  lemma NobodyReached(children: seq<Tree>)
    ensures Reactions(children, []) == [] && forall a :: Count([], a) == 0
  {
    assert Receivers([]) == [];
  }

  lemma BelowFirst(children: seq<Tree>) returns (here: seq<Addr>, later: seq<Addr>)
    requires children != [] && NoDup(Below(children))
    ensures here == [children[0].addr] + Below(children[0].children) && later == Below(children[1..])
    ensures Below(children) == here + later && NoDup(here) && NoDup(later) && Disjoint(here, later)
    ensures forall a :: a in here <==> a == children[0].addr || a in Below(children[0].children)
  {
    here, later := [children[0].addr] + Below(children[0].children), Below(children[1..]);
    assert Below(children) == here + later;
    NoDupConcat(here, later);
  }

  /** What the first child does with its message, and what the others start from. */
  lemma FirstChild(children: seq<Tree>, list: seq<Addr>, route: Route, payload: seq<Byte>, here: seq<Addr>)
      returns (got: seq<Delivery>)
    requires NoDup(Below(children)) && Nodes(Below(children)) && children != []
    requires NoDup(list) && 0 < |payload| && LinksFit(children, list, payload) && !route.all
    requires forall a :: a in here <==> a == children[0].addr || a in Below(children[0].children)
    ensures var (route', rest, s) := ChildTurn(children[0], list, route, payload);
            && !route'.all && NoDup(rest) && LinksFit(children[1..], rest, payload)
            && got == (if s.Some? then Receive(children[0], Carried(s.value.route, s.value.data)) else [])
            && AllCarry(got, payload)
            && (forall a :: a in rest <==> a in list && a !in here)
            && (forall a :: Count(got, a) == if a in list && a in here then 1 else 0)
  {
    var first, later := BelowFirst(children);
    ChildTurnExact(children[0], list, route, payload);
    var (route', rest, s) := ChildTurn(children[0], list, route, payload);
    RestFits(children, list, rest, payload);
    got := if s.Some? then Receive(children[0], Carried(s.value.route, s.value.data)) else [];
  }

  lemma ReachedFirst(list: seq<Addr>, rest: seq<Addr>, left: seq<Addr>, here: seq<Addr>,
                     got: seq<Delivery>, more: seq<Delivery>, lost: Option<Tree>)
    requires forall a :: a in rest <==> a in list && a !in here
    requires forall a :: Count(got, a) == if a in list && a in here then 1 else 0
    requires ReachedOrLeft(more, left, rest, lost) && forall a | Lost(lost, a) :: a !in here
    ensures ReachedOrLeft(got + more, left, list, lost)
  {
    forall a ensures Count(got + more, a) == Count(got, a) + Count(more, a) {
      CountConcat(got, more, a);
    }
  }
}
