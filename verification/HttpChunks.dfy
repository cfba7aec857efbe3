/** Collecting the answers of several nodes in one chunked HTTP response (mlink_httpd.c),
    against a decoder for the chunked transfer coding of section 7.1 of RFC 9112. Bytes are
    modelled as characters. */
module HttpChunks {
  import opened Prelude

  const CRLF := "\r\n"
  const LAST_CHUNK := "0\r\n\r\n"

  /** The fixed texts; nothing below depends on what they say. */
  datatype Texts = Texts(header: string, badRequest: string)

  const CHUNK_HEADER := "HTTP/1.1 200 OK\r\nContent-Type: application/http\r\nTransfer-Encoding: chunked\r\n\r\n"
  const BAD_REQUEST_HEAD := "HTTP/1.1 400 Bad Request\r\nContent-Type: application/json\r\nContent-Length: 79\r\n\r\n"
  const BAD_REQUEST_BODY := "{\"status_code\":-1,\"status_msg\":\"Destination address error, No device response\"}"
  const TEXTS := Texts(CHUNK_HEADER, BAD_REQUEST_HEAD + BAD_REQUEST_BODY)

  // ---------- chunk sizes ----------

  const HEX_DIGITS := "0123456789abcdef"

  /** printf's %x */
  function Hex(n: nat): (s: string)
    ensures s != []
  {
    if n < 16 then [HEX_DIGITS[n]] else Hex(n / 16) + [HEX_DIGITS[n % 16]]
  }

  function HexValue(c: char): Option<nat> {
    if '0' <= c <= '9' then Some((c - '0') as nat)
    else if 'a' <= c <= 'f' then Some((c - 'a') as nat + 10)
    else if 'A' <= c <= 'F' then Some((c - 'A') as nat + 10)
    else None
  }

  /** The value of the leading hexadecimal digits, continuing from acc, and what follows them. */
  function ParseHex(s: string, acc: nat): (r: (nat, string))
    ensures |r.1| <= |s|
  {
    if s == "" || HexValue(s[0]).None? then (acc, s)
    else ParseHex(s[1..], acc * 16 + HexValue(s[0]).value)
  }

  lemma HexDigitValue(d: nat)
    requires d < 16
    ensures HexValue(HEX_DIGITS[d]) == Some(d)
  {
  }

  lemma ParseDigit(d: nat, tail: string, acc: nat)
    requires d < 16
    ensures ParseHex([HEX_DIGITS[d]] + tail, acc) == ParseHex(tail, acc * 16 + d)
  {
    HexDigitValue(d);
    assert ([HEX_DIGITS[d]] + tail)[1..] == tail;
  }

  lemma {:induction false} ParsePrinted(n: nat, tail: string)
    ensures ParseHex(Hex(n) + tail, 0) == ParseHex(tail, n)
  {
    if n < 16 {
      ParseDigit(n, tail, 0);
    } else {
      var d := [HEX_DIGITS[n % 16]];
      Grouped(Hex(n / 16), d, tail);
      ParsePrinted(n / 16, d + tail);
      ParseDigit(n % 16, tail, n / 16);
    }
  }

  lemma Grouped(a: string, d: string, tail: string)
    ensures a + d + tail == a + (d + tail)
  {
  }

  /** The first digit of a size other than 0 is not 0: a chunk is never taken for the last one. */
  lemma {:induction false} HexStart(n: nat)
    ensures HexValue(Hex(n)[0]).Some?
  {
    HexDigitValue(n % 16);
    if n >= 16 {
      HexStart(n / 16);
    }
  }

  /** Digits in lower case, and no leading 0. */
  lemma {:induction false} HexDigits(n: nat)
    ensures forall i | 0 <= i < |Hex(n)| :: '0' <= Hex(n)[i] <= '9' || 'a' <= Hex(n)[i] <= 'f'
    ensures 0 < n ==> Hex(n)[0] != '0'
  {
    if n >= 16 {
      HexDigits(n / 16);
    }
  }

  // ---------- the decoder of section 7.1 of RFC 9112 ----------

  predicate StartsWith(s: string, p: string) {
    |p| <= |s| && s[..|p|] == p
  }

  /** chunked-body without extensions and trailers: the chunk data and what follows the body. */
  function DecodeChunks(s: string): (r: Option<(seq<string>, string)>)
    decreases |s|
  {
    if s == "" || HexValue(s[0]).None? then None
    else
      var (size, afterSize) := ParseHex(s, 0);
      if !StartsWith(afterSize, CRLF) then None
      else
        var body := afterSize[2..];
        if size == 0 then
          if StartsWith(body, CRLF) then Some(([], body[2..])) else None
        else if |body| < size || !StartsWith(body[size..], CRLF) then None
        else
          match DecodeChunks(body[size + 2..])
          case None => None
          case Some((chunks, rest)) => Some(([body[..size]] + chunks, rest))
  }

  /** A whole response: the header of a chunked response, its chunks and nothing more. */
  function DecodeResponse(x: Texts, s: string): Option<seq<string>> {
    if !StartsWith(s, x.header) then None
    else
      match DecodeChunks(s[|x.header|..])
      case None => None
      case Some((chunks, rest)) => if rest == "" then Some(chunks) else None
  }

  function Chunk(data: string): string {
    Hex(|data|) + CRLF + data + CRLF
  }

  function Chunks(datas: seq<string>): string {
    if datas == [] then "" else Chunk(datas[0]) + Chunks(datas[1..])
  }

  lemma ChunkParts(data: string, tail: string)
    ensures var body := data + CRLF + tail;
            && Chunk(data) + tail == Hex(|data|) + (CRLF + body)
            && StartsWith(CRLF + body, CRLF) && (CRLF + body)[2..] == body
            && body[..|data|] == data && StartsWith(body[|data|..], CRLF) && body[|data| + 2..] == tail
  {
    Parts(Hex(|data|), CRLF, data, tail);
  }

  lemma Parts(head: string, nl: string, data: string, tail: string)
    ensures var body := data + nl + tail;
            && head + nl + data + nl + tail == head + (nl + body)
            && (nl + body)[..|nl|] == nl && (nl + body)[|nl|..] == body
            && body[..|data|] == data && body[|data|..][..|nl|] == nl && body[|data| + |nl|..] == tail
  {
    var body := data + nl + tail;
    FiveParts(head, nl, data, tail);
    CutAt(nl, body);
    Grouped(data, nl, tail);
    CutAt(data, nl + tail);
    CutAt(nl, tail);
    assert body[|data| + |nl|..] == body[|data|..][|nl|..];
  }

  lemma FiveParts(head: string, nl: string, data: string, tail: string)
    ensures head + nl + data + nl + tail == head + (nl + (data + nl + tail))
  {
  }

  lemma CutAt(x: string, y: string)
    ensures (x + y)[..|x|] == x && (x + y)[|x|..] == y
  {
  }

  lemma ParseSize(n: nat, body: string)
    ensures var s := Hex(n) + (CRLF + body);
            HexValue(s[0]).Some? && ParseHex(s, 0) == (n, CRLF + body)
  {
    HexStart(n);
    ParsePrinted(n, CRLF + body);
    assert (CRLF + body)[0] == '\r';
  }

  lemma DecodeOneChunk(data: string, tail: string)
    requires data != ""
    ensures var r := DecodeChunks(Chunk(data) + tail);
            match DecodeChunks(tail)
            case None => r.None?
            case Some((chunks, rest)) => r == Some(([data] + chunks, rest))
  {
    ChunkParts(data, tail);
    ParseSize(|data|, data + CRLF + tail);
  }

  lemma DecodeLastChunk(rest: string)
    ensures DecodeChunks(LAST_CHUNK + rest) == Some(([], rest))
  {
    var s := LAST_CHUNK + rest;
    assert s[0] == '0' && s[1] == '\r' && s[2] == '\n' && s[3] == '\r' && s[4] == '\n';
    assert ParseHex(s, 0) == ParseHex(s[1..], 0) == (0, s[1..]);
    assert s[1..][..2] == CRLF && s[1..][2..] == CRLF + rest && (CRLF + rest)[2..] == rest;
  }

  lemma {:induction false} DecodeAllChunks(datas: seq<string>)
    requires forall i | 0 <= i < |datas| :: datas[i] != ""
    ensures DecodeChunks(Chunks(datas) + LAST_CHUNK) == Some((datas, ""))
  {
    if datas == [] {
      assert Chunks(datas) + LAST_CHUNK == LAST_CHUNK + "";
      DecodeLastChunk("");
    } else {
      assert Chunks(datas) + LAST_CHUNK == Chunk(datas[0]) + (Chunks(datas[1..]) + LAST_CHUNK);
      DecodeAllChunks(datas[1..]);
      DecodeOneChunk(datas[0], Chunks(datas[1..]) + LAST_CHUNK);
      assert [datas[0]] + datas[1..] == datas;
    }
  }

  /** Encoding and decoding are inverse: any list of responses comes back in order. */
  lemma DecodesToChunks(x: Texts, datas: seq<string>)
    requires forall i | 0 <= i < |datas| :: datas[i] != ""
    ensures DecodeResponse(x, x.header + Chunks(datas) + LAST_CHUNK) == Some(datas)
  {
    DecodeAllChunks(datas);
    Behind(x.header, Chunks(datas), LAST_CHUNK);
  }

  lemma Behind(h: string, body: string, tail: string)
    ensures StartsWith(h + body + tail, h) && (h + body + tail)[|h|..] == body + tail
  {
  }

  lemma {:induction false} ChunksAppend(datas: seq<string>, data: string)
    ensures Chunks(datas + [data]) == Chunks(datas) + Chunk(data)
  {
    if datas == [] {
      assert [] + [data] == [data];
      assert Chunks([data]) == Chunk(data) + Chunks([]);
    } else {
      assert (datas + [data])[1..] == datas[1..] + [data];
      ChunksAppend(datas[1..], data);
    }
  }

  // ---------- one connection ----------

  datatype Flag = None_ | Data | Header | Body

  /** A used or free slot of g_conn_list, with what has been put on its socket. */
  datatype Conn = Conn(flag: Flag, num: nat, out: string)

  /** mlink_connection_add for n destinations. */
  function Open(n: nat): Conn {
    Conn(if n > 1 then Header else Data, n, "")
  }

  /** httpd_default_send frees the slot when a send fails. */
  function Broken(c: Conn): (r: Conn) {
    c.(flag := None_, num := 0)
  }

  /** mlink_httpd_write for a response that is ready; `ok(k)` says whether the k-th send works.
      The result is the connection and whether MDF_OK is returned. */
  function Write(x: Texts, c: Conn, resp: string, ok: nat -> bool): (r: (Conn, bool)) {
    if c.flag == None_ then (c, false)
    else if c.flag == Header && !ok(0) then (Broken(c), false)
    else
      var c := if c.flag == Header then c.(out := c.out + x.header, flag := Body) else c;
      if c.flag == Body && !ok(1) then (Broken(c), false)
      else
        var c := if c.flag == Body then c.(out := c.out + Hex(|resp|) + CRLF) else c;
        if !ok(2) then (Broken(c), false)
        else
          var c := c.(out := c.out + if c.flag == Body then resp + CRLF else resp,
                      num := (c.num + 0xFFFF) % 0x1_0000);
          if c.num > 0 then (c, true)
          else if c.flag == Body && !ok(3) then (Broken(c), false)
          else
            (c.(out := if c.flag == Body then c.out + LAST_CHUNK else c.out, flag := None_, num := 0), true)
  }

  /** mlink_connection_timeout_cb; `writable` says that the socket takes the rest. */
  function Timeout(x: Texts, c: Conn, writable: bool): Conn {
    if c.flag == None_ then c
    else
      var footer := if c.flag == Body then LAST_CHUNK else x.badRequest;
      Conn(None_, 0, if writable then c.out + footer else c.out)
  }

  // ---------- runs ----------

  /** After `done` of n > 1 answers. */
  predicate Collecting(x: Texts, c: Conn, n: nat, done: seq<string>) {
    && |done| < n
    && c.num == n - |done|
    && c.flag == (if done == [] then Header else Body)
    && c.out == if done == [] then "" else x.header + Chunks(done)
  }

  lemma Regroup(a: string, h: string, nl: string, d: string)
    ensures a + h + nl + (d + nl) == a + (h + nl + d + nl)
  {
  }

  /** A write that works puts one chunk on the socket, the header before the first one and the
      last chunk after the last one. */
  lemma WriteWorks(x: Texts, c: Conn, resp: string)
    requires (c.flag == Header || c.flag == Body) && 0 < c.num < 0x1_0000
    ensures var sent := (if c.flag == Header then c.out + x.header else c.out) + Chunk(resp);
            Write(x, c, resp, _ => true) ==
            (if c.num == 1 then Conn(None_, 0, sent + LAST_CHUNK) else Conn(Body, c.num - 1, sent), true)
  {
    Regroup(if c.flag == Header then c.out + x.header else c.out, Hex(|resp|), CRLF, resp);
  }

  lemma OneMore(x: Texts, c: Conn, n: nat, done: seq<string>, resp: string)
    requires 1 < n < 0x1_0000 && Collecting(x, c, n, done)
    ensures var c' := Write(x, c, resp, _ => true).0;
            if |done| + 1 == n then c' == Conn(None_, 0, x.header + Chunks(done + [resp]) + LAST_CHUNK)
            else Collecting(x, c', n, done + [resp])
  {
    WriteWorks(x, c, resp);
    ChunksAppend(done, resp);
    Regrouped(x.header, Chunks(done), Chunk(resp));
  }

  lemma Regrouped(h: string, done: string, chunk: string)
    ensures h + done + chunk == h + (done + chunk) && "" + h == h && h + "" == h
  {
  }

  // ---------- sends that fail ----------

  /** The k-th send of a write takes place if those before it work. */
  predicate Reached(c: Conn, k: nat) {
    || (k == 0 && c.flag == Header)
    || (k == 1 && (c.flag == Header || c.flag == Body))
    || k == 2
    || (k == 3 && (c.flag == Header || c.flag == Body) && c.num == 1)
  }

  ghost predicate AllWork(c: Conn, ok: nat -> bool) {
    forall k | Reached(c, k) :: ok(k)
  }

  lemma PrefixPlus(a: string, b: string)
    ensures a <= a + b && (b != "" ==> a < a + b)
  {
  }

  lemma PrefixChain(a: string, b: string, c: string, d: string, e: string)
    requires a <= b <= c && c < d && d <= e
    ensures a <= c && a < d && b < d && a < e && b < e && c < e
  {
  }

  /** For a slot in use: if all the sends that are reached work, the write does all that it is meant
      to do. If one of them fails, the slot is free, and the socket has got a proper prefix. */
  lemma WriteIff(x: Texts, c: Conn, resp: string, ok: nat -> bool)
    requires c.flag != None_ && c.num < 0x1_0000 && resp != ""
    ensures var (r, ret) := Write(x, c, resp, ok);
            && (ret <==> AllWork(c, ok))
            && (ret ==> r == Write(x, c, resp, _ => true).0)
            && (!ret ==> r.flag == None_ && r.num == 0 && c.out <= r.out < Write(x, c, resp, _ => true).0.out)
  {
    var chunked := c.flag != Data;
    var a := if c.flag == Header then c.out + x.header else c.out;
    var b := if chunked then a + Hex(|resp|) + CRLF else a;
    var d := b + if chunked then resp + CRLF else resp;
    var e := if chunked && c.num == 1 then d + LAST_CHUNK else d;
    PrefixPlus(c.out, x.header);
    PrefixPlus(a, Hex(|resp|));
    PrefixPlus(a + Hex(|resp|), CRLF);
    PrefixPlus(b, if chunked then resp + CRLF else resp);
    PrefixPlus(d, LAST_CHUNK);
    PrefixChain(c.out, a, b, d, e);
    assert Write(x, c, resp, _ => true).0.out == e;
    assert Reached(c, 2) && (c.flag == Header ==> Reached(c, 0));
    assert (chunked ==> Reached(c, 1)) && (chunked && c.num == 1 ==> Reached(c, 3));
  }

  /** A free slot stays as it is, and the write fails. */
  lemma WriteToFree(x: Texts, c: Conn, resp: string, ok: nat -> bool)
    requires c.flag == None_
    ensures Write(x, c, resp, ok) == (c, false)
  {
  }

  // ---------- a response that is cut short ----------

  lemma {:induction false} DecodeCut(datas: seq<string>, tail: string)
    requires (forall i | 0 <= i < |datas| :: datas[i] != "") && DecodeChunks(tail).None?
    ensures DecodeChunks(Chunks(datas) + tail).None?
  {
    if datas == [] {
      assert Chunks(datas) + tail == tail;
    } else {
      assert Chunks(datas) + tail == Chunk(datas[0]) + (Chunks(datas[1..]) + tail);
      DecodeCut(datas[1..], tail);
      DecodeOneChunk(datas[0], Chunks(datas[1..]) + tail);
    }
  }

  lemma CutAfterSize(n: nat)
    ensures DecodeChunks(Hex(n) + CRLF).None?
  {
    ParseSize(n, "");
    assert CRLF + "" == CRLF;
    assert CRLF[2..] == "";
  }

  /** What a write that fails leaves behind is never taken for a whole response. */
  lemma CutIsNoticed(x: Texts, c: Conn, n: nat, done: seq<string>, resp: string, ok: nat -> bool)
    requires 1 < n < 0x1_0000 && Collecting(x, c, n, done) && resp != "" && x.header != ""
    requires (forall i | 0 <= i < |done| :: done[i] != "") && !AllWork(c, ok)
    ensures DecodeResponse(x, Write(x, c, resp, ok).0.out).None?
  {
    var out := Write(x, c, resp, ok).0.out;
    var size := Hex(|resp|) + CRLF;
    CutForms(x, c, n, done, resp, ok);
    CutAfterSize(|resp|);
    NotWhole(x, done, "");
    NotWhole(x, done, size);
    NotWhole(x, done + [resp], "");
  }

  lemma CutForms(x: Texts, c: Conn, n: nat, done: seq<string>, resp: string, ok: nat -> bool)
    requires 1 < n < 0x1_0000 && Collecting(x, c, n, done) && resp != "" && !AllWork(c, ok)
    ensures var out := Write(x, c, resp, ok).0.out;
            || out == ""
            || out == x.header + Chunks(done) + ""
            || out == x.header + Chunks(done) + (Hex(|resp|) + CRLF)
            || out == x.header + Chunks(done + [resp]) + ""
  {
    WriteIff(x, c, resp, ok);
    var sent := x.header + Chunks(done);
    ChunksAppend(done, resp);
    WholeChunk(x.header, Chunks(done), Hex(|resp|), CRLF, resp);
  }

  lemma WholeChunk(h: string, done: string, size: string, nl: string, resp: string)
    ensures h + done + size + nl == h + done + (size + nl)
    ensures h + done + size + nl + (resp + nl) == h + (done + (size + nl + resp + nl)) + ""
    ensures h + done == h + done + "" && h + "" == h && "" + h == h
  {
  }

  lemma NotWhole(x: Texts, datas: seq<string>, tail: string)
    requires (forall i | 0 <= i < |datas| :: datas[i] != "") && DecodeChunks(tail).None?
    ensures DecodeResponse(x, x.header + Chunks(datas) + tail).None?
  {
    DecodeCut(datas, tail);
    Behind(x.header, Chunks(datas), tail);
  }

  // ---------- whole runs ----------

  /** An answer arrives, and its k-th send works or not; or the timer of the connection runs out,
      and the socket takes the rest or not. */
  datatype Event = Answer(resp: string, ok: nat -> bool) | Expiry(writable: bool)

  function Handle(x: Texts, c: Conn, e: Event): Conn {
    match e
    case Answer(resp, ok) => Write(x, c, resp, ok).0
    case Expiry(writable) => Timeout(x, c, writable)
  }

  function Handler(x: Texts): (Conn, Event) -> Conn {
    (c, e) => Handle(x, c, e)
  }

  function Fold(h: (Conn, Event) -> Conn, c: Conn, events: seq<Event>): Conn
    decreases |events|
  {
    if events == [] then c else Fold(h, h(c, events[0]), events[1..])
  }

  function HandleAll(x: Texts, c: Conn, events: seq<Event>): Conn {
    Fold(Handler(x), c, events)
  }

  /** The answer is sent completely, as the first one or the last one or in between. */
  predicate Arrives(e: Event, first: bool, last: bool) {
    e.Answer? && (first ==> e.ok(0)) && e.ok(1) && e.ok(2) && (last ==> e.ok(3))
  }

  /** The answers up to the first event that ends it all, after `done` and at most n. */
  function Heard(events: seq<Event>, n: nat, done: seq<string>): (r: seq<string>)
    requires |done| <= n
    ensures |done| <= |r| <= n && |r| <= |done| + |events|
    decreases |events|
  {
    if events == [] || |done| == n || !Arrives(events[0], done == [], n - |done| == 1) then done
    else Heard(events[1..], n, done + [events[0].resp])
  }

  ghost predicate LeavesFree(h: (Conn, Event) -> Conn) {
    forall c: Conn, e: Event | c.flag == None_ :: h(c, e) == c
  }

  lemma {:induction false} FreeStaysFree(h: (Conn, Event) -> Conn, c: Conn, events: seq<Event>)
    requires LeavesFree(h) && c.flag == None_
    ensures Fold(h, c, events) == c
    decreases |events|
  {
    if events != [] {
      FreeStaysFree(h, c, events[1..]);
    }
  }

  /** What is on the socket after these answers, with more to come. */
  function SoFar(x: Texts, done: seq<string>): string {
    if done == [] then "" else x.header + Chunks(done)
  }

  /** What the event that ends it all leaves. */
  ghost predicate Ended(x: Texts, c: Conn, done: seq<string>, e: Event) {
    && c.flag == None_ && c.num == 0
    && match e
       case Expiry(writable) =>
         c.out == if !writable then SoFar(x, done)
                  else if done == [] then x.badRequest else x.header + Chunks(done) + LAST_CHUNK
       case Answer(_, _) => DecodeResponse(x, c.out).None?
  }

  ghost predicate NoneEmpty(events: seq<Event>) {
    forall i | 0 <= i < |events| && events[i].Answer? :: events[i].resp != ""
  }

  /** The connection after some answers of n, or after all of them. */
  function Along(x: Texts, n: nat, done: seq<string>): Conn {
    if |done| >= n then Conn(None_, 0, x.header + Chunks(done) + LAST_CHUNK)
    else Conn(if done == [] then Header else Body, n - |done|, SoFar(x, done))
  }

  function After(x: Texts, n: nat): seq<string> -> Conn {
    done => Along(x, n, done)
  }

  /** What one event does at one point of the way. */
  ghost predicate OneStep(h: (Conn, Event) -> Conn, at: seq<string> -> Conn, n: nat, done: seq<string>, e: Event) {
    |done| < n && (e.Answer? ==> e.resp != "") ==>
      if Arrives(e, done == [], n - |done| == 1) then h(at(done), e) == at(done + [e.resp])
      else h(at(done), e).flag == None_
  }

  /** The same at any point; afterwards the connection is free. */
  ghost predicate OneByOne(h: (Conn, Event) -> Conn, at: seq<string> -> Conn, n: nat) {
    && LeavesFree(h) && (forall done: seq<string> | |done| == n :: at(done).flag == None_)
    && forall done: seq<string>, e: Event :: OneStep(h, at, n, done, e)
  }

  /** Where the connection is after `done`, with the event at k as the one that ends it, if any. */
  ghost predicate Fate(h: (Conn, Event) -> Conn, at: seq<string> -> Conn, c: Conn, n: nat, done: seq<string>,
                       events: seq<Event>, k: nat) {
    if |done| >= n || k >= |events| then c == at(done)
    else c == h(at(done), events[k]) && !Arrives(events[k], done == [], n - |done| == 1)
  }

  lemma {:induction false} FoldIs(h: (Conn, Event) -> Conn, at: seq<string> -> Conn, n: nat, done: seq<string>, events: seq<Event>)
    requires OneByOne(h, at, n) && |done| <= n && NoneEmpty(events)
    ensures var heard := Heard(events, n, done);
            Fate(h, at, Fold(h, at(done), events), n, heard, events, |heard| - |done|)
    decreases |events|
  {
    if |done| == n || events == [] || !Arrives(events[0], done == [], n - |done| == 1) {
      FoldEnds(h, at, n, done, events);
    } else {
      var rest, done1 := events[1..], done + [events[0].resp];
      FoldIs(h, at, n, done1, rest);
      FoldStep(h, at, n, done, events);
      FateShift(h, at, Fold(h, at(done1), rest), n, Heard(rest, n, done1), events, |Heard(rest, n, done1)| - |done1|);
    }
  }

  lemma FoldStep(h: (Conn, Event) -> Conn, at: seq<string> -> Conn, n: nat, done: seq<string>, events: seq<Event>)
    requires OneByOne(h, at, n) && |done| < n && NoneEmpty(events)
    requires events != [] && Arrives(events[0], done == [], n - |done| == 1)
    ensures Fold(h, at(done), events) == Fold(h, at(done + [events[0].resp]), events[1..])
    ensures Heard(events, n, done) == Heard(events[1..], n, done + [events[0].resp])
  {
    assert OneStep(h, at, n, done, events[0]);
  }

  lemma FoldEnds(h: (Conn, Event) -> Conn, at: seq<string> -> Conn, n: nat, done: seq<string>, events: seq<Event>)
    requires OneByOne(h, at, n) && |done| <= n && NoneEmpty(events)
    requires |done| == n || events == [] || !Arrives(events[0], done == [], n - |done| == 1)
    ensures Heard(events, n, done) == done && Fate(h, at, Fold(h, at(done), events), n, done, events, 0)
  {
    if |done| == n {
      FreeStaysFree(h, at(done), events);
    } else if events != [] {
      assert OneStep(h, at, n, done, events[0]);
      FreeStaysFree(h, h(at(done), events[0]), events[1..]);
    }
  }

  lemma FateShift(h: (Conn, Event) -> Conn, at: seq<string> -> Conn, c: Conn, n: nat, done: seq<string>, events: seq<Event>, k: nat)
    requires events != [] && Fate(h, at, c, n, done, events[1..], k)
    ensures Fate(h, at, c, n, done, events, k + 1)
  {
  }

  lemma HandlerOneByOne(x: Texts, n: nat)
    requires 1 < n < 0x1_0000
    ensures OneByOne(Handler(x), After(x, n), n)
  {
    var h, at := Handler(x), After(x, n);
    forall done: seq<string>, e: Event ensures OneStep(h, at, n, done, e) {
      if |done| < n && (e.Answer? ==> e.resp != "") {
        OneEvent(x, n, done, e);
      }
    }
  }

  lemma OneEvent(x: Texts, n: nat, done: seq<string>, e: Event)
    requires 1 < n < 0x1_0000 && |done| < n && (e.Answer? ==> e.resp != "")
    ensures if Arrives(e, done == [], n - |done| == 1) then Handle(x, Along(x, n, done), e) == Along(x, n, done + [e.resp])
            else Handle(x, Along(x, n, done), e).flag == None_
  {
    var c := Along(x, n, done);
    if e.Answer? {
      WriteIff(x, c, e.resp, e.ok);
      OneMore(x, c, n, done, e.resp);
      assert Reached(c, 1) && Reached(c, 2) && (done == [] ==> Reached(c, 0)) && (n - |done| == 1 ==> Reached(c, 3));
    }
  }

  lemma EndsIt(x: Texts, c: Conn, n: nat, done: seq<string>, e: Event)
    requires 1 < n < 0x1_0000 && Collecting(x, c, n, done) && x.header != ""
    requires (e.Answer? ==> e.resp != "") && forall i | 0 <= i < |done| :: done[i] != ""
    requires !Arrives(e, done == [], n - |done| == 1)
    ensures Ended(x, Handle(x, c, e), done, e)
  {
    if e.Answer? {
      WriteIff(x, c, e.resp, e.ok);
      assert Reached(c, 1) && Reached(c, 2) && (done == [] ==> Reached(c, 0)) && (n - |done| == 1 ==> Reached(c, 3));
      CutIsNoticed(x, c, n, done, e.resp, e.ok);
    } else {
      Regrouped(x.badRequest, "", "");
    }
  }

  lemma {:induction false} HeardAreAnswers(events: seq<Event>, n: nat, done: seq<string>)
    requires NoneEmpty(events) && |done| <= n && forall i | 0 <= i < |done| :: done[i] != ""
    ensures forall i | 0 <= i < |Heard(events, n, done)| :: Heard(events, n, done)[i] != ""
    decreases |events|
  {
    if events != [] && |done| < n && Arrives(events[0], done == [], n - |done| == 1) {
      HeardAreAnswers(events[1..], n, done + [events[0].resp]);
    }
  }

  lemma CutSoFar(x: Texts, done: seq<string>)
    requires x.header != "" && forall i | 0 <= i < |done| :: done[i] != ""
    ensures DecodeResponse(x, SoFar(x, done)).None?
  {
    NotWhole(x, done, "");
    Regrouped(x.header + Chunks(done), "", "");
    assert x.header + Chunks(done) + "" == x.header + Chunks(done);
  }

  /** Any interleaving of answers and timeouts, with sends that work and sends that fail: the slot
      of a request to n > 1 nodes is freed by the n-th answer, by a timeout or by a send that fails,
      whichever is first, and later events change nothing. Then the socket has got
      - one complete chunked response that decodes to the answers heard until then, in order, if the
        last answer or a timeout could be sent,
      - the error response alone, if a timeout could be sent and nobody had answered,
      - otherwise something that no decoder takes for a whole response. */
  lemma OneCompleteResponse(x: Texts, n: nat, events: seq<Event>)
    requires 1 < n < 0x1_0000 && x.header != "" && NoneEmpty(events)
    ensures var c := HandleAll(x, Open(n), events);
            var heard := Heard(events, n, []);
            && (c.flag == None_ <==> |heard| == n || |heard| < |events|)
            && (c.flag == None_ ==>
                  if |heard| == n then DecodeResponse(x, c.out) == Some(heard)
                  else if events[|heard|] == Expiry(true) then
                    if heard == [] then c.out == x.badRequest else DecodeResponse(x, c.out) == Some(heard)
                  else DecodeResponse(x, c.out).None?)
  {
    var heard := Heard(events, n, []);
    HandleAllFate(x, n, events);
    HeardAreAnswers(events, n, []);
    Outcome(x, HandleAll(x, Open(n), events), n, heard, events);
  }

  lemma HandleAllFate(x: Texts, n: nat, events: seq<Event>)
    requires 1 < n < 0x1_0000 && NoneEmpty(events)
    ensures var heard := Heard(events, n, []);
            Fate(Handler(x), After(x, n), HandleAll(x, Open(n), events), n, heard, events, |heard|)
  {
    HandlerOneByOne(x, n);
    assert After(x, n)([]) == Open(n);
    FoldFromStart(Handler(x), After(x, n), Open(n), n, events);
  }

  lemma FoldFromStart(h: (Conn, Event) -> Conn, at: seq<string> -> Conn, c: Conn, n: nat, events: seq<Event>)
    requires OneByOne(h, at, n) && 0 < n && NoneEmpty(events) && at([]) == c
    ensures var heard := Heard(events, n, []); Fate(h, at, Fold(h, c, events), n, heard, events, |heard|)
  {
    FoldIs(h, at, n, [], events);
  }

  lemma Outcome(x: Texts, c: Conn, n: nat, heard: seq<string>, events: seq<Event>)
    requires 1 < n < 0x1_0000 && x.header != "" && NoneEmpty(events) && |heard| <= n
    requires forall i | 0 <= i < |heard| :: heard[i] != ""
    requires Fate(Handler(x), After(x, n), c, n, heard, events, |heard|)
    ensures c.flag == None_ <==> |heard| == n || |heard| < |events|
    ensures c.flag == None_ ==>
              if |heard| == n then DecodeResponse(x, c.out) == Some(heard)
              else if events[|heard|] == Expiry(true) then
                if heard == [] then c.out == x.badRequest else DecodeResponse(x, c.out) == Some(heard)
              else DecodeResponse(x, c.out).None?
  {
    DecodesToChunks(x, heard);
    CutSoFar(x, heard);
    if |heard| < n && |heard| < |events| {
      EndsIt(x, Along(x, n, heard), n, heard, events[|heard|]);
    }
  }

  /** A single answer is sent as it is, or the error response instead of it; whatever comes first
      decides, and nothing is sent if that fails. */
  lemma SingleAnswer(x: Texts, first: Event, events: seq<Event>)
    ensures HandleAll(x, Open(1), [first] + events) ==
            Conn(None_, 0, match first
                           case Answer(resp, ok) => if ok(2) then resp else ""
                           case Expiry(writable) => if writable then x.badRequest else "")
  {
    assert ([first] + events)[1..] == events;
    var out := match first
               case Answer(resp, ok) => if ok(2) then resp else ""
               case Expiry(writable) => if writable then x.badRequest else "";
    Regrouped(out, "", "");
    FreeStaysFree(Handler(x), Conn(None_, 0, out), events);
  }

  /** The announced length of the error response is right. */
  lemma BadRequestLength()
    ensures |BAD_REQUEST_BODY| == 79
  {
  }

  /** A slot added for no destination is not freed by an answer: the counter wraps around, and
      the timeout then puts an error response behind the one already sent. */
  lemma NoDestinations(x: Texts, resp: string)
    ensures var c := Write(x, Open(0), resp, _ => true).0;
            && c.flag == Data && c.num == 0xFFFF
            && Timeout(x, c, true).out == resp + x.badRequest
  {
    assert "" + resp == resp;
  }
}
