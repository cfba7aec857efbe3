/** mlink_httpd.c as it runs: an array of connection slots found by socket, and what goes out on
    each socket, proved against `HttpChunks`. */
module HttpServer {
  import opened HttpChunks

  /** mlink_connection_t without the handles. */
  datatype Slot = Slot(sockfd: nat, num: nat, flag: Flag)

  const FREE := Slot(0, 0, None_)

  class Server {
    const texts: Texts
    const slots: array<Slot>
    var sockets: map<nat, string>

    ghost predicate Valid()
      reads this, slots
    {
      forall i | 0 <= i < slots.Length && slots[i].flag != None_ :: slots[i].sockfd in sockets
    }

    /** Slot i is the first one in use for this socket. */
    ghost predicate FirstFor(i: nat, fd: nat)
      reads this, slots
    {
      && i < slots.Length && slots[i].flag != None_ && slots[i].sockfd == fd
      && forall k | 0 <= k < i :: !(slots[k].flag != None_ && slots[k].sockfd == fd)
    }

    /** Slot i as the connection of the socket fd. */
    ghost function ConnAt(i: nat, fd: nat): Conn
      requires i < slots.Length && fd in sockets
      reads this, slots
    {
      Conn(slots[i].flag, slots[i].num, sockets[fd])
    }

    constructor (maxConnect: nat)
      ensures Valid() && fresh(slots) && slots.Length == maxConnect && texts == TEXTS
      ensures forall i | 0 <= i < slots.Length :: slots[i] == FREE
    {
      texts := TEXTS;
      slots := new Slot[maxConnect](_ => FREE);
      sockets := map[];
    }

    /** mlink_connection_add: the first free slot, also if the socket has one already. */
    method Add(sockfd: nat, num: nat) returns (ok: bool)
      requires Valid() && num < 0x1_0000
      modifies this`sockets, slots
      ensures Valid()
      ensures ok <==> exists i :: 0 <= i < slots.Length && old(slots[i].flag) == None_
      ensures ok ==> exists i :: 0 <= i < slots.Length && slots[..] == old(slots[..])[i := Slot(sockfd, num, slots[i].flag)]
                                 && sockfd in sockets && ConnAt(i, sockfd) == Open(num)
      ensures ok ==> sockets == old(sockets)[sockfd := ""]
      ensures !ok ==> slots[..] == old(slots[..]) && sockets == old(sockets)
    {
      for i := 0 to slots.Length
        invariant forall k | 0 <= k < i :: slots[k].flag != None_
        invariant slots[..] == old(slots[..]) && sockets == old(sockets)
      {
        if slots[i].flag == None_ {
          slots[i] := Slot(sockfd, num, if num > 1 then Header else Data);
          sockets := sockets[sockfd := ""];
          return true;
        }
      }
      return false;
    }

    /** mlink_connection_find */
    method Find(sockfd: nat) returns (i: nat)
      ensures i <= slots.Length
      ensures i < slots.Length ==> FirstFor(i, sockfd)
      ensures i == slots.Length <==> !exists k :: FirstFor(k, sockfd)
      ensures forall k | 0 <= k < i :: !(slots[k].flag != None_ && slots[k].sockfd == sockfd)
    {
      i := 0;
      while i < slots.Length && !(slots[i].sockfd == sockfd && slots[i].flag != None_)
        invariant i <= slots.Length
        invariant forall k | 0 <= k < i :: !(slots[k].flag != None_ && slots[k].sockfd == sockfd)
      {
        i := i + 1;
      }
      if i < slots.Length {
        assert FirstFor(i, sockfd);
      }
    }

    /** The outcome of a write or a timeout; mlink_connection_remove clears the whole slot. */
    method Store(i: nat, c: Conn)
      requires Valid() && i < slots.Length && slots[i].flag != None_
      requires c.flag == None_ ==> c.num == 0
      modifies this`sockets, slots
      ensures Valid()
      ensures sockets == old(sockets)[old(slots[i].sockfd) := c.out]
      ensures ConnAt(i, old(slots[i].sockfd)) == c
      ensures slots[i].sockfd == if c.flag == None_ then 0 else old(slots[i].sockfd)
      ensures forall k | 0 <= k < slots.Length && k != i :: slots[k] == old(slots[k])
    {
      sockets := sockets[slots[i].sockfd := c.out];
      slots[i] := if c.flag == None_ then FREE else Slot(slots[i].sockfd, c.num, c.flag);
    }

    /** mlink_httpd_write: only the first slot of the socket and what is put on this socket change. */
    method Write(sockfd: nat, resp: string, ok: nat -> bool) returns (ret: bool)
      requires Valid()
      modifies this`sockets, slots
      ensures Valid()
      ensures forall i | old(FirstFor(i, sockfd)) ::
                && sockfd in sockets && sockfd in old(sockets)
                && (ConnAt(i, sockfd), ret) == HttpChunks.Write(texts, old(ConnAt(i, sockfd)), resp, ok)
                && (forall k | 0 <= k < slots.Length && k != i :: slots[k] == old(slots[k]))
      ensures forall fd | fd in old(sockets) && fd != sockfd :: fd in sockets && sockets[fd] == old(sockets)[fd]
      ensures (!exists i :: old(FirstFor(i, sockfd))) ==>
                !ret && slots[..] == old(slots[..]) && sockets == old(sockets)
    {
      var i := Find(sockfd);
      if i == slots.Length {
        return false;
      }
      var c := Conn(slots[i].flag, slots[i].num, sockets[sockfd]);
      var next;
      next, ret := WriteConn(c, resp, ok);
      Store(i, next);
    }

    /** The sends of mlink_httpd_write. */
    method WriteConn(c: Conn, resp: string, ok: nat -> bool) returns (c': Conn, ret: bool)
      requires c.flag != None_
      ensures (c', ret) == HttpChunks.Write(texts, c, resp, ok)
    {
      var flag, out, payload := c.flag, c.out, resp;
      if flag == Header {
        if !ok(0) {
          return Broken(c), false;
        }
        out, flag := out + texts.header, Body;
      }
      if flag == Body {
        if !ok(1) {
          return Conn(None_, 0, out), false;
        }
        out, payload := out + Hex(|resp|) + CRLF, resp + CRLF;
      }
      if !ok(2) {
        return Conn(None_, 0, out), false;
      }
      out := out + payload;
      var num := (c.num + 0xFFFF) % 0x1_0000;
      if num > 0 {
        return Conn(flag, num, out), true;
      }
      if flag == Body {
        if !ok(3) {
          return Conn(None_, 0, out), false;
        }
        out := out + LAST_CHUNK;
      }
      return Conn(None_, 0, out), true;
    }

    /** mlink_connection_timeout_cb of slot i; `works` says whether the send works if the socket is
        writable. If it does not, the first slot of that socket is freed as well, which may be
        another one. */
    method Expire(i: nat, writable: bool, works: bool)
      requires Valid() && i < slots.Length
      modifies this`sockets, slots
      ensures Valid()
      ensures old(slots[i].flag) != None_ ==>
                var fd := old(slots[i].sockfd);
                fd in sockets && fd in old(sockets) && ConnAt(i, fd) == Timeout(texts, old(ConnAt(i, fd)), writable && works)
      ensures old(slots[i].flag) == None_ ==> slots[..] == old(slots[..]) && sockets == old(sockets)
      ensures old(slots[i].flag) != None_ ==>
                forall k | 0 <= k < slots.Length && k != i ::
                  slots[k] == if writable && !works && old(FirstFor(k, slots[i].sockfd)) then FREE else old(slots[k])
      ensures forall fd | fd in old(sockets) && fd != old(slots[i].sockfd) :: fd in sockets && sockets[fd] == old(sockets)[fd]
    {
      if slots[i].flag == None_ {
        return;
      }
      var footer := if slots[i].flag == Body then LAST_CHUNK else texts.badRequest;
      var out := sockets[slots[i].sockfd];
      if writable {
        if works {
          out := out + footer;
        } else {
          var j := Find(slots[i].sockfd);
          if j != i {
            slots[j] := FREE;
          }
        }
      }
      Store(i, Conn(None_, 0, out));
    }
  }
}
