/** The two-segment log on flash (mdebug_flash.c) refines a FIFO that drops its oldest bytes
    one segment at a time. */
module FlashLog {
  import opened Prelude
  import opened Flash

  const NEWLINE: Byte := 10

  /** flash_log_info_t without the address. */
  datatype Info = Info(size: nat, offset: nat)

  /** The log area of the partition, g_log_index, the entry of g_log_info it selects, the other
      entry and the flag for the timestamp. `segment` is the size of one file. */
  datatype Log = Log(segment: nat, flash: seq<Byte>, index: nat, current: Info, older: Info, stamp: bool)

  function CurrentBase(l: Log): nat {
    if l.index == 0 then 0 else l.segment
  }

  function OlderBase(l: Log): nat {
    if l.index == 0 then l.segment else 0
  }

  predicate WellFormed(l: Log) {
    2 * l.segment <= |l.flash| && l.index < 2
  }

  /** Offsets lie within sizes and sizes within segments. */
  predicate Bounded(l: Log) {
    && WellFormed(l)
    && l.current.offset <= l.current.size <= l.segment
    && l.older.offset <= l.older.size <= l.segment
  }

  ghost predicate ErasedBetween(flash: seq<Byte>, lo: nat, hi: nat) {
    hi <= |flash| && forall a | lo <= a < hi :: flash[a] == 0xFF
  }

  /** What is not yet used of the current segment is erased. */
  ghost predicate Inv(l: Log) {
    Bounded(l) && ErasedBetween(l.flash, End(l), CurrentBase(l) + l.segment)
  }

  /** The address behind the last byte written. */
  function End(l: Log): nat {
    CurrentBase(l) + l.current.size
  }

  /** The unread bytes of one segment. */
  function Part(flash: seq<Byte>, base: nat, info: Info): seq<Byte>
    requires info.offset <= info.size && base + info.size <= |flash|
  {
    flash[base + info.offset..base + info.size]
  }

  function OlderPart(l: Log): seq<Byte>
    requires Bounded(l)
  {
    Part(l.flash, OlderBase(l), l.older)
  }

  function CurrentPart(l: Log): seq<Byte>
    requires Bounded(l)
  {
    Part(l.flash, CurrentBase(l), l.current)
  }

  /** The FIFO. */
  ghost function Unread(l: Log): seq<Byte>
    requires Bounded(l)
  {
    OlderPart(l) + CurrentPart(l)
  }

  // ---------- writing ----------

  function EraseRange(flash: seq<Byte>, at: nat, n: nat): (r: seq<Byte>)
    requires at + n <= |flash|
    ensures |r| == |flash|
  {
    seq(|flash|, k requires 0 <= k < |flash| => if at <= k < at + n then 0xFF else flash[k])
  }

  /** The chunk alone does not fit behind what is there; the timestamp is not counted. */
  predicate Rotates(l: Log, data: seq<Byte>) {
    l.current.size + |data| > l.segment
  }

  /** The other segment is cleared and becomes the current one. */
  function Rotate(l: Log): (r: Log)
    requires WellFormed(l)
    ensures WellFormed(r)
  {
    Log(l.segment, EraseRange(l.flash, OlderBase(l), l.segment), 1 - l.index, Info(0, 0), l.current, l.stamp)
  }

  function Target(l: Log, data: seq<Byte>): (r: Log)
    requires WellFormed(l)
    ensures WellFormed(r) && r.stamp == l.stamp && r.segment == l.segment
  {
    if Rotates(l, data) then Rotate(l) else l
  }

  function Put(l: Log, data: seq<Byte>): (r: Log)
    requires WellFormed(l) && End(l) + |data| <= |l.flash|
    ensures WellFormed(r)
  {
    l.(flash := Program(l.flash, End(l), data), current := l.current.(size := l.current.size + |data|))
  }

  function Stamped(l: Log, text: seq<Byte>, data: seq<Byte>): seq<Byte> {
    (if l.stamp then text else []) + data
  }

  function PutStamp(l: Log, text: seq<Byte>): (r: Log)
    requires WellFormed(l) && (l.stamp ==> End(l) + |text| <= |l.flash|)
    ensures WellFormed(r)
  {
    if l.stamp then Put(l, text).(stamp := false) else l
  }

  /** Timestamp and chunk, once the segment is chosen. */
  function Append(l: Log, text: seq<Byte>, data: seq<Byte>): (r: Log)
    requires WellFormed(l) && data != [] && End(l) + |Stamped(l, text, data)| <= |l.flash|
    ensures WellFormed(r)
  {
    var w := Put(PutStamp(l, text), data);
    if data[|data| - 1] == NEWLINE then w.(stamp := true) else w
  }

  /** Both writes stay inside the partition, otherwise the driver refuses them. */
  predicate Accepted(l: Log, text: seq<Byte>, data: seq<Byte>)
    requires WellFormed(l)
  {
    End(Target(l, data)) + |Stamped(l, text, data)| <= |l.flash|
  }

  /** What a refused write leaves behind: the rotation and, if that was not refused, the timestamp. */
  function Refused(l: Log, text: seq<Byte>, data: seq<Byte>): (r: Log)
    requires WellFormed(l)
    ensures WellFormed(r)
  {
    var t := Target(l, data);
    if t.stamp && End(t) + |text| <= |t.flash| then PutStamp(t, text) else t.(stamp := false)
  }

  /** mdebug_flash_write of a non-empty chunk; `text` is the timestamp. The flag says whether
      MDF_OK is returned. */
  function Write(l: Log, text: seq<Byte>, data: seq<Byte>): (r: (Log, bool))
    requires WellFormed(l) && data != []
    ensures WellFormed(r.0)
  {
    if Accepted(l, text, data) then (Append(Target(l, data), text, data), true)
    else (Refused(l, text, data), false)
  }

  // ---------- reading ----------

  function Taken(info: Info, wanted: nat): nat
    requires info.offset <= info.size
  {
    Min(wanted, info.size - info.offset)
  }

  function Advance(info: Info, n: nat): Info {
    info.(offset := info.offset + n)
  }

  /** The two turns of the loop of mdebug_flash_read. */
  function ReadOlder(l: Log, wanted: nat): (r: (Log, seq<Byte>))
    requires Bounded(l)
    ensures Bounded(r.0) && |r.1| <= wanted
  {
    var n := Taken(l.older, wanted);
    (l.(older := Advance(l.older, n)), OlderPart(l)[..n])
  }

  function ReadCurrent(l: Log, wanted: nat): (r: (Log, seq<Byte>))
    requires Bounded(l)
    ensures Bounded(r.0) && |r.1| <= wanted
  {
    var n := Taken(l.current, wanted);
    (l.(current := Advance(l.current, n)), CurrentPart(l)[..n])
  }

  /** mdebug_flash_read: first from the older segment, then from the current one. */
  function Read(l: Log, wanted: nat): (r: (Log, seq<Byte>))
    requires Bounded(l)
  {
    var (m, x) := ReadOlder(l, wanted);
    var (s, y) := ReadCurrent(m, wanted - |x|);
    (s, x + y)
  }

  // ---------- refinement ----------

  lemma SliceParts(x: seq<Byte>, lo: nat, hi: nat, n: nat)
    requires lo + n <= hi <= |x|
    ensures x[lo..hi][..n] == x[lo..lo + n] && x[lo..hi][n..] == x[lo + n..hi]
  {
  }

  lemma SameSlice(x: seq<Byte>, y: seq<Byte>, lo: nat, hi: nat)
    requires lo <= hi <= |x| && hi <= |y| && forall a | lo <= a < hi :: y[a] == x[a]
    ensures y[lo..hi] == x[lo..hi]
  {
  }

  lemma ProgramErased(flash: seq<Byte>, at: nat, data: seq<Byte>)
    requires at + |data| <= |flash| && ErasedBetween(flash, at, at + |data|)
    ensures Program(flash, at, data)[at..at + |data|] == data
  {
    forall k | 0 <= k < |data| ensures Program(flash, at, data)[at + k] == data[k] {
      assert flash[at + k] == 0xFF;
      assert 0xFF & data[k] == data[k];
    }
  }

  lemma ProgramElsewhere(flash: seq<Byte>, at: nat, data: seq<Byte>, lo: nat, hi: nat)
    requires at + |data| <= |flash| && lo <= hi <= |flash| && (hi <= at || at + |data| <= lo)
    ensures Program(flash, at, data)[lo..hi] == flash[lo..hi]
  {
    SameSlice(flash, Program(flash, at, data), lo, hi);
  }

  lemma RotateMeaning(l: Log)
    requires Inv(l)
    ensures Inv(Rotate(l)) && Unread(Rotate(l)) == CurrentPart(l)
  {
    var r := Rotate(l);
    SameSlice(l.flash, r.flash, CurrentBase(l) + l.current.offset, End(l));
    assert CurrentPart(r) == [];
  }

  lemma PutMeaning(l: Log, data: seq<Byte>)
    requires Inv(l) && l.current.size + |data| <= l.segment
    ensures End(l) + |data| <= |l.flash|
    ensures Inv(Put(l, data)) && Unread(Put(l, data)) == Unread(l) + data
  {
    PutParts(l, data);
    Associative(OlderPart(l), CurrentPart(l), data);
  }

  lemma PutParts(l: Log, data: seq<Byte>)
    requires Inv(l) && l.current.size + |data| <= l.segment
    ensures End(l) + |data| <= |l.flash|
    ensures var r := Put(l, data);
            Inv(r) && OlderPart(r) == OlderPart(l) && CurrentPart(r) == CurrentPart(l) + data
  {
    PutOlder(l, data);
    PutKeepsInv(l, data);
    PutCurrent(l.flash, CurrentBase(l) + l.current.offset, End(l), data);
  }

  lemma PutKeepsInv(l: Log, data: seq<Byte>)
    requires Inv(l) && l.current.size + |data| <= l.segment
    ensures End(l) + |data| <= |l.flash| && Inv(Put(l, data))
  {
  }

  lemma PutOlder(l: Log, data: seq<Byte>)
    requires Bounded(l) && l.current.size + |data| <= l.segment
    ensures Program(l.flash, End(l), data)[OlderBase(l) + l.older.offset..OlderBase(l) + l.older.size] == OlderPart(l)
  {
    ProgramElsewhere(l.flash, End(l), data, OlderBase(l) + l.older.offset, OlderBase(l) + l.older.size);
  }

  lemma Associative(x: seq<Byte>, y: seq<Byte>, z: seq<Byte>)
    ensures x + y + z == x + (y + z)
  {
  }

  lemma PutCurrent(flash: seq<Byte>, lo: nat, end: nat, data: seq<Byte>)
    requires lo <= end && end + |data| <= |flash| && ErasedBetween(flash, end, end + |data|)
    ensures Program(flash, end, data)[lo..end + |data|] == flash[lo..end] + data
  {
    var r := Program(flash, end, data);
    ProgramErased(flash, end, data);
    ProgramElsewhere(flash, end, data, lo, end);
    assert r[lo..end + |data|] == r[lo..end] + r[end..end + |data|];
  }

  lemma StampIsNoContent(l: Log, stamp: bool)
    requires Inv(l)
    ensures Inv(l.(stamp := stamp)) && Unread(l.(stamp := stamp)) == Unread(l)
  {
  }

  lemma PutStampMeaning(l: Log, text: seq<Byte>)
    requires Inv(l) && l.stamp && l.current.size + |text| <= l.segment
    ensures End(l) + |text| <= |l.flash|
    ensures Inv(PutStamp(l, text)) && Unread(PutStamp(l, text)) == Unread(l) + text
  {
    PutMeaning(l, text);
    StampIsNoContent(Put(l, text), false);
  }

  lemma AppendMeaning(l: Log, text: seq<Byte>, data: seq<Byte>)
    requires Inv(l) && data != [] && l.current.size + |Stamped(l, text, data)| <= l.segment
    ensures End(l) + |Stamped(l, text, data)| <= |l.flash|
    ensures Inv(Append(l, text, data)) && Unread(Append(l, text, data)) == Unread(l) + Stamped(l, text, data)
  {
    if l.stamp {
      PutStampMeaning(l, text);
    }
    var s := PutStamp(l, text);
    PutMeaning(s, data);
    StampIsNoContent(Put(s, data), true);
    Associative(Unread(l), if l.stamp then text else [], data);
    assert Unread(l) + [] == Unread(l);
  }

  /** The chunk and its timestamp fit into the segment that takes them. */
  predicate Fits(l: Log, text: seq<Byte>, data: seq<Byte>) {
    (if Rotates(l, data) then 0 else l.current.size) + |Stamped(l, text, data)| <= l.segment
  }

  /** What is left of the log when a write has rotated or not. */
  function Kept(l: Log, data: seq<Byte>): seq<Byte>
    requires Bounded(l)
  {
    if Rotates(l, data) then CurrentPart(l) else OlderPart(l) + CurrentPart(l)
  }

  lemma TargetMeaning(l: Log, data: seq<Byte>)
    requires Inv(l)
    ensures Inv(Target(l, data)) && Unread(Target(l, data)) == Kept(l, data)
  {
    if Rotates(l, data) {
      RotateMeaning(l);
    }
  }

  /** A write that fits appends the chunk with its timestamp; if it rotates, the unread rest of
      the older segment is dropped and nothing else. */
  lemma WriteMeaning(l: Log, text: seq<Byte>, data: seq<Byte>)
    requires Inv(l) && data != [] && Fits(l, text, data)
    ensures var (r, ok) := Write(l, text, data);
            ok && Inv(r) && Unread(r) == Kept(l, data) + Stamped(l, text, data)
  {
    TargetMeaning(l, data);
    AppendMeaning(Target(l, data), text, data);
  }

  // ---------- when a write rotates ----------

  /** While chunk and timestamp fit behind what is there, a write appends them and drops nothing. */
  lemma FittingWriteAppends(l: Log, text: seq<Byte>, data: seq<Byte>)
    requires Inv(l) && data != [] && l.current.size + |Stamped(l, text, data)| <= l.segment
    ensures var (r, ok) := Write(l, text, data);
            && ok && Inv(r) && Unread(r) == Unread(l) + Stamped(l, text, data)
            && r.index == l.index && r.older == l.older && r.current.offset == l.current.offset
            && r.current.size == l.current.size + |Stamped(l, text, data)|
  {
    WriteMeaning(l, text, data);
  }

  /** When the chunk does not fit there but with its timestamp into an empty segment, a write drops
      the unread rest of the older segment and nothing else. */
  lemma OverflowingWriteDropsOlder(l: Log, text: seq<Byte>, data: seq<Byte>)
    requires Inv(l) && data != [] && |Stamped(l, text, data)| <= l.segment < l.current.size + |data|
    ensures var (r, ok) := Write(l, text, data);
            && ok && Inv(r) && Unread(r) == CurrentPart(l) + Stamped(l, text, data)
            && r.index != l.index && r.older == l.current && r.current == Info(|Stamped(l, text, data)|, 0)
  {
    WriteMeaning(l, text, data);
  }

  /** Whether it succeeds or not, a write changes segments exactly if the chunk without its
      timestamp does not fit behind what is there. */
  lemma ChangesSegmentIff(l: Log, text: seq<Byte>, data: seq<Byte>)
    requires WellFormed(l) && data != []
    ensures var r := Write(l, text, data).0;
            && (r.index != l.index <==> l.current.size + |data| > l.segment)
            && (r.index == l.index ==> r.older == l.older && r.current.offset == l.current.offset)
            && (r.index != l.index ==> r.older == l.current && r.current.offset == 0)
  {
  }

  /** A write succeeds exactly if chunk and timestamp end within the partition. */
  lemma WriteSucceedsIff(l: Log, text: seq<Byte>, data: seq<Byte>)
    requires Bounded(l) && data != []
    ensures var base := if l.current.size + |data| > l.segment then OlderBase(l) else CurrentBase(l) + l.current.size;
            Write(l, text, data).1 <==> base + (if l.stamp then |text| else 0) + |data| <= |l.flash|
  {
  }

  /** The next write begins a line exactly if this one succeeds and ends with a newline. */
  lemma StampAfterWrite(l: Log, text: seq<Byte>, data: seq<Byte>)
    requires WellFormed(l) && data != []
    ensures var (r, ok) := Write(l, text, data); r.stamp <==> ok && data[|data| - 1] == NEWLINE
  {
  }

  /** The timestamp that a refused write leaves behind. */
  function Leftover(l: Log, text: seq<Byte>, data: seq<Byte>): seq<Byte>
    requires WellFormed(l)
  {
    if l.stamp && End(Target(l, data)) + |text| <= |l.flash| then text else []
  }

  /** A write that the driver refuses may rotate and add a timestamp, but not the chunk. It keeps
      the log within its segments iff that timestamp, if there is one, fits. */
  lemma RefusedMeaning(l: Log, text: seq<Byte>, data: seq<Byte>)
    requires Inv(l) && data != [] && !Accepted(l, text, data)
    ensures var (r, ok) := Write(l, text, data);
            && !ok
            && (Inv(r) <==> Target(l, data).current.size + |Leftover(l, text, data)| <= l.segment)
            && (Inv(r) ==> Unread(r) == Kept(l, data) + Leftover(l, text, data))
  {
    TargetMeaning(l, data);
    var t := Target(l, data);
    if Leftover(l, text, data) != [] && t.current.size + |text| <= l.segment {
      PutStampMeaning(t, text);
    } else if Leftover(l, text, data) == [] {
      RefusedNothing(l, text, data);
    }
  }

  lemma RefusedNothing(l: Log, text: seq<Byte>, data: seq<Byte>)
    requires Inv(l) && data != [] && !Accepted(l, text, data) && Leftover(l, text, data) == []
    ensures var t := Target(l, data); Refused(l, text, data) == t.(stamp := false)
    ensures Inv(Refused(l, text, data)) && Unread(Refused(l, text, data)) == Kept(l, data) + []
  {
    var t := Target(l, data);
    TargetMeaning(l, data);
    if t.stamp && End(t) + |text| <= |t.flash| {
      ProgramNothing(t.flash, End(t));
    }
    StampIsNoContent(t, false);
    assert Kept(l, data) + [] == Kept(l, data);
  }

  /** A write succeeds and keeps the log within its segments iff chunk and timestamp fit. */
  lemma WriteKeepsInvIff(l: Log, text: seq<Byte>, data: seq<Byte>)
    requires Inv(l) && data != []
    ensures var (r, ok) := Write(l, text, data); ok && Inv(r) <==> Fits(l, text, data)
  {
    if Fits(l, text, data) {
      WriteMeaning(l, text, data);
    }
  }

  /** What a write into the first segment that does not fit does: each byte beyond its end is
      ANDed into the second segment, whatever is unread there. */
  lemma SpillDamages(l: Log, text: seq<Byte>, data: seq<Byte>, j: nat)
    requires WellFormed(l) && data != [] && l.index == 0 && End(l) + |Stamped(l, text, data)| <= |l.flash|
    requires l.current.size <= l.segment && l.segment + j < l.current.size + |Stamped(l, text, data)|
    ensures Append(l, text, data).flash[l.segment + j] ==
            l.flash[l.segment + j] & Stamped(l, text, data)[l.segment + j - l.current.size]
  {
    var before := if l.stamp then text else [];
    AppendFlash(l, text, data);
    ProgramTwice(l.flash, End(l), before, data, l.segment + j);
  }

  lemma AppendFlash(l: Log, text: seq<Byte>, data: seq<Byte>)
    requires WellFormed(l) && data != [] && End(l) + |Stamped(l, text, data)| <= |l.flash|
    ensures var before := if l.stamp then text else [];
            Append(l, text, data).flash == Program(Program(l.flash, End(l), before), End(l) + |before|, data)
  {
    ProgramNothing(l.flash, End(l));
  }

  lemma ProgramNothing(flash: seq<Byte>, at: nat)
    requires at <= |flash|
    ensures Program(flash, at, []) == flash
  {
  }

  lemma ProgramTwice(flash: seq<Byte>, at: nat, x: seq<Byte>, y: seq<Byte>, a: nat)
    requires at + |x| + |y| <= |flash| && at <= a < at + |x| + |y|
    ensures Program(Program(flash, at, x), at + |x|, y)[a] == flash[a] & (x + y)[a - at]
  {
    if a < at + |x| {
      assert (x + y)[a - at] == x[a - at];
    } else {
      assert (x + y)[a - at] == y[a - at - |x|];
    }
  }

  /** mdebug_flash_read returns the oldest unread bytes, as many as are wanted and there. */
  lemma ReadMeaning(l: Log, wanted: nat)
    requires Bounded(l)
    ensures var (r, out) := Read(l, wanted);
            && Bounded(r) && (Inv(l) ==> Inv(r))
            && |out| == Min(wanted, |Unread(l)|) && out == Unread(l)[..|out|]
            && Unread(r) == Unread(l)[|out|..]
  {
    var n := Taken(l.older, wanted);
    var m := Taken(l.current, wanted - n);
    PartAdvance(l.flash, OlderBase(l), l.older, n);
    PartAdvance(l.flash, CurrentBase(l), l.current, m);
    var (r, out) := Read(l, wanted);
    TakeBoth(OlderPart(l), CurrentPart(l), n, m, wanted, out, Unread(r));
  }

  lemma PartAdvance(flash: seq<Byte>, base: nat, info: Info, n: nat)
    requires info.offset + n <= info.size && base + info.size <= |flash|
    ensures Part(flash, base, Advance(info, n)) == Part(flash, base, info)[n..]
  {
    SliceParts(flash, base + info.offset, base + info.size, n);
  }

  lemma TakeBoth(x: seq<Byte>, y: seq<Byte>, n: nat, m: nat, wanted: nat, out: seq<Byte>, rest: seq<Byte>)
    requires n == Min(wanted, |x|) && m == Min(wanted - n, |y|)
    requires out == x[..n] + y[..m] && rest == x[n..] + y[m..]
    ensures |out| == Min(wanted, |x + y|) && out == (x + y)[..|out|] && rest == (x + y)[|out|..]
  {
  }

  // ---------- runs ----------

  /** A byte that has left the log: read, or dropped by a rotation. */
  datatype Gone = Gone(byte: Byte, wasRead: bool)

  function Mark(bytes: seq<Byte>, wasRead: bool): (s: seq<Gone>)
    ensures |s| == |bytes|
  {
    seq(|bytes|, i requires 0 <= i < |bytes| => Gone(bytes[i], wasRead))
  }

  function Bytes(gone: seq<Gone>): (s: seq<Byte>)
    ensures |s| == |gone|
  {
    seq(|gone|, i requires 0 <= i < |gone| => gone[i].byte)
  }

  function BytesRead(gone: seq<Gone>): seq<Byte> {
    if gone == [] then []
    else BytesRead(gone[..|gone| - 1]) + if gone[|gone| - 1].wasRead then [gone[|gone| - 1].byte] else []
  }

  datatype Op = Store(text: seq<Byte>, data: seq<Byte>) | Fetch(wanted: nat)

  /** The log with what has been written to it and read from it, and what became of the bytes
      that are no longer in it, in the order in which they left. */
  datatype History = History(log: Log, written: seq<Byte>, read: seq<Byte>, gone: seq<Gone>)

  /** Chunks that fit with their timestamps or are refused; reads of any size. */
  predicate Possible(h: History, op: Op) {
    && Bounded(h.log)
    && (op.Store? ==>
          && op.data != []
          && (Fits(h.log, op.text, op.data)
              || (!Accepted(h.log, op.text, op.data)
                  && Target(h.log, op.data).current.size + |Leftover(h.log, op.text, op.data)| <= h.log.segment)))
  }

  /** The bytes that a write adds. */
  function Added(l: Log, text: seq<Byte>, data: seq<Byte>): seq<Byte>
    requires WellFormed(l)
  {
    if Accepted(l, text, data) then Stamped(l, text, data) else Leftover(l, text, data)
  }

  function Step(h: History, op: Op): (r: History)
    requires Possible(h, op)
  {
    match op
    case Store(text, data) =>
      History(Write(h.log, text, data).0, h.written + Added(h.log, text, data), h.read,
              h.gone + Mark(if Rotates(h.log, data) then OlderPart(h.log) else [], false))
    case Fetch(wanted) =>
      var (l, out) := Read(h.log, wanted);
      History(l, h.written, h.read + out, h.gone + Mark(out, true))
  }

  /** Conservation: what has left the log followed by what is in it is what was written, in
      order, and the reads returned the bytes marked as read, in order. */
  ghost predicate Conserved(h: History) {
    && Inv(h.log)
    && h.written == Bytes(h.gone) + Unread(h.log)
    && h.read == BytesRead(h.gone)
  }

  lemma {:induction false} BytesReadMark(gone: seq<Gone>, bytes: seq<Byte>, wasRead: bool)
    ensures BytesRead(gone + Mark(bytes, wasRead)) == BytesRead(gone) + if wasRead then bytes else []
    ensures Bytes(gone + Mark(bytes, wasRead)) == Bytes(gone) + bytes
  {
    if bytes == [] {
      assert gone + Mark(bytes, wasRead) == gone;
    } else {
      var init, last := bytes[..|bytes| - 1], bytes[|bytes| - 1];
      MarkLast(gone, bytes, wasRead);
      BytesReadMark(gone, init, wasRead);
      assert bytes == init + [last];
      OneGone(gone + Mark(init, wasRead), Gone(last, wasRead));
      assert BytesRead(gone) + init + [last] == BytesRead(gone) + bytes;
      assert Bytes(gone) + init + [last] == Bytes(gone) + bytes;
    }
  }

  lemma MarkLast(gone: seq<Gone>, bytes: seq<Byte>, wasRead: bool)
    requires bytes != []
    ensures gone + Mark(bytes, wasRead) == gone + Mark(bytes[..|bytes| - 1], wasRead) + [Gone(bytes[|bytes| - 1], wasRead)]
  {
  }

  lemma OneGone(gone: seq<Gone>, g: Gone)
    ensures BytesRead(gone + [g]) == BytesRead(gone) + if g.wasRead then [g.byte] else []
    ensures Bytes(gone + [g]) == Bytes(gone) + [g.byte]
  {
    assert (gone + [g])[..|gone|] == gone;
  }

  lemma StoreConserves(h: History, text: seq<Byte>, data: seq<Byte>)
    requires Conserved(h) && Possible(h, Store(text, data))
    ensures Conserved(Step(h, Store(text, data)))
  {
    var dropped := if Rotates(h.log, data) then OlderPart(h.log) else [];
    StoreMeaning(h, text, data);
    BytesReadMark(h.gone, dropped, false);
    Dropped(Bytes(h.gone), OlderPart(h.log), CurrentPart(h.log), Added(h.log, text, data));
    assert BytesRead(h.gone) + [] == BytesRead(h.gone);
  }

  lemma StoreMeaning(h: History, text: seq<Byte>, data: seq<Byte>)
    requires Inv(h.log) && Possible(h, Store(text, data))
    ensures var r := Write(h.log, text, data).0;
            Inv(r) && Unread(r) == Kept(h.log, data) + Added(h.log, text, data)
  {
    if Fits(h.log, text, data) {
      WriteMeaning(h.log, text, data);
    } else {
      RefusedMeaning(h.log, text, data);
    }
  }

  lemma FetchConserves(h: History, wanted: nat)
    requires Conserved(h) && Possible(h, Fetch(wanted))
    ensures Conserved(Step(h, Fetch(wanted)))
  {
    var (l, out) := Read(h.log, wanted);
    ReadMeaning(h.log, wanted);
    BytesReadMark(h.gone, out, true);
    Taking(Bytes(h.gone), Unread(h.log), out, Unread(l));
  }

  lemma Taking(g: seq<Byte>, u: seq<Byte>, out: seq<Byte>, rest: seq<Byte>)
    requires |out| <= |u| && out == u[..|out|] && rest == u[|out|..]
    ensures g + out + rest == g + u
  {
  }

  /** One operation keeps the conservation law. */
  lemma StepConserves(h: History, op: Op)
    requires Conserved(h) && Possible(h, op)
    ensures Conserved(Step(h, op))
  {
    match op
    case Store(text, data) => StoreConserves(h, text, data);
    case Fetch(wanted) => FetchConserves(h, wanted);
  }

  lemma Dropped(g: seq<Byte>, x: seq<Byte>, y: seq<Byte>, z: seq<Byte>)
    ensures g + (x + y) + z == g + x + (y + z)
    ensures g + (x + y) + z == g + [] + (x + y + z)
  {
  }

  ghost predicate IsRun(h: History, ops: seq<Op>)
    decreases |ops|
  {
    ops == [] || (Possible(h, ops[0]) && IsRun(Step(h, ops[0]), ops[1..]))
  }

  ghost function After(h: History, ops: seq<Op>): History
    requires IsRun(h, ops)
    decreases |ops|
  {
    if ops == [] then h else After(Step(h, ops[0]), ops[1..])
  }

  /** Over any run of writes that fit and reads, the log is a FIFO that loses bytes only when
      it rotates, and then the oldest ones. */
  lemma {:induction false} RunConserves(h: History, ops: seq<Op>)
    requires Conserved(h) && IsRun(h, ops)
    ensures Conserved(After(h, ops))
    decreases |ops|
  {
    if ops != [] {
      StepConserves(h, ops[0]);
      RunConserves(Step(h, ops[0]), ops[1..]);
    }
  }

  /** With no rotation in between, reading everything returns everything in order. */
  lemma NothingLost(h: History, ops: seq<Op>)
    requires Conserved(h) && h.gone == [] && IsRun(h, ops)
    requires forall g | g in After(h, ops).gone :: g.wasRead
    ensures var r := After(h, ops); Bounded(r.log) && r.written == r.read + Unread(r.log)
  {
    RunConserves(h, ops);
    AllRead(After(h, ops).gone);
  }

  lemma {:induction false} AllRead(gone: seq<Gone>)
    requires forall g | g in gone :: g.wasRead
    ensures BytesRead(gone) == Bytes(gone)
  {
    if gone != [] {
      AllRead(gone[..|gone| - 1]);
    }
  }

  /** The most that these operations can add. */
  function Volume(ops: seq<Op>): nat {
    if ops == [] then 0
    else (if ops[0].Store? then |ops[0].text| + |ops[0].data| else 0) + Volume(ops[1..])
  }

  /** Nothing is lost, and no segment changed, while everything fits behind what is there. */
  lemma {:induction false} FittingRunLosesNothing(h: History, ops: seq<Op>)
    requires Conserved(h) && (forall op | op in ops && op.Store? :: op.data != [])
    requires h.log.current.size + Volume(ops) <= h.log.segment && forall g | g in h.gone :: g.wasRead
    ensures IsRun(h, ops)
    ensures var r := After(h, ops);
            && Conserved(r) && r.log.index == h.log.index && r.log.older.size == h.log.older.size
            && r.written == r.read + Unread(r.log)
    decreases |ops|
  {
    if ops == [] {
      AllRead(h.gone);
    } else {
      assert ops[0] in ops;
      var r := FittingStep(h, ops[0]);
      FittingRunLosesNothing(r, ops[1..]);
    }
  }

  lemma FittingStep(h: History, op: Op) returns (r: History)
    requires Conserved(h) && (op.Store? ==> op.data != []) && (forall g | g in h.gone :: g.wasRead)
    requires op.Store? ==> h.log.current.size + |op.text| + |op.data| <= h.log.segment
    ensures Possible(h, op) && r == Step(h, op) && Conserved(r) && forall g | g in r.gone :: g.wasRead
    ensures r.log.segment == h.log.segment && r.log.index == h.log.index && r.log.older.size == h.log.older.size
    ensures r.log.current.size <= h.log.current.size + if op.Store? then |op.text| + |op.data| else 0
  {
    if op.Store? {
      FittingWriteAppends(h.log, op.text, op.data);
    }
    r := Step(h, op);
    StepConserves(h, op);
    if op.Fetch? {
      var out := Read(h.log, op.wanted).1;
      assert forall g | g in Mark(out, true) :: g.wasRead;
    } else {
      assert r.gone == h.gone + Mark([], false) == h.gone;
    }
  }
}
