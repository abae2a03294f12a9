/** Filtering a MySQL binlog by timestamp, whatever the buffers it is read with: BinlogReader. */
module Binlog {
  import opened Bytes

  const MAGIC: Bytes := [0xfe, 0x62, 0x69, 0x6e]
  const HEADER_SIZE: nat := 13

  // ---- binlogs --------------------------------------------------------------

  /** ParseEventHeader: the first fields of an event. */
  function Timestamp(b: Bytes): nat
    requires |b| >= HEADER_SIZE
  {
    Decode(b[0..4])
  }

  function EventLength(b: Bytes): nat
    requires |b| >= HEADER_SIZE
  {
    Decode(b[9..13])
  }

  /** The bytes of one whole event. */
  predicate IsEvent(e: Bytes) {
    |e| >= HEADER_SIZE && EventLength(e) == |e|
  }

  predicate AllEvents(events: seq<Bytes>) {
    forall i :: 0 <= i < |events| ==> IsEvent(events[i])
  }

  /** The events to deliver: those not before `start`, up to the first that is not before `start` and not before `end`. */
  function Selected(events: seq<Bytes>, start: nat, end: nat): seq<Bytes>
    requires AllEvents(events)
  {
    if events == [] then []
    else if Timestamp(events[0]) < start then Selected(events[1..], start, end)
    else if Timestamp(events[0]) >= end then []
    else [events[0]] + Selected(events[1..], start, end)
  }

  // ---- what is delivered of any bytes ---------------------------------------

  /**
   * What is delivered of the bytes after the prologue, whole events or not: an event that the data cuts short is
   * delivered as far as it goes, and skipping one that is cut short ends the delivery.
   */
  function Deliverable(b: Bytes, start: nat, end: nat): Bytes
    decreases |b|
  {
    if |b| < HEADER_SIZE || EventLength(b) == 0 then []
    else if Timestamp(b) < start then
      (if |b| < EventLength(b) then [] else Deliverable(b[EventLength(b)..], start, end))
    else if Timestamp(b) >= end then []
    else if |b| < EventLength(b) then b
    else b[..EventLength(b)] + Deliverable(b[EventLength(b)..], start, end)
  }

  /** No event that claims length zero is reached; the source never gets past one. */
  predicate Walkable(b: Bytes, start: nat, end: nat)
    decreases |b|
  {
    |b| >= HEADER_SIZE && !(start <= Timestamp(b) && end <= Timestamp(b)) ==>
      EventLength(b) > 0 && (|b| >= EventLength(b) ==> Walkable(b[EventLength(b)..], start, end))
  }

  /** What a reader should deliver of a binlog: magic and header event before what there is to deliver, if anything. */
  function Filtered(magicAndHeader: Bytes, b: Bytes, start: nat, end: nat): Bytes {
    var delivered := Deliverable(b, start, end);
    if delivered == [] then [] else magicAndHeader + delivered
  }

  /** Of whole events exactly the selected ones are delivered. */
  lemma {:induction false} WholeEvents(events: seq<Bytes>, start: nat, end: nat)
    requires AllEvents(events)
    ensures Walkable(Concat(events), start, end)
    ensures Deliverable(Concat(events), start, end) == Concat(Selected(events, start, end))
  {
    hide EventLength, Timestamp;
    if events != [] {
      var first, rest := events[0], events[1..];
      WholeEvents(rest, start, end);
      EventParses(first, Concat(rest));
      assert Concat(events) == first + Concat(rest);
    }
  }

  // ---- selection, spelled out -----------------------------------------------

  /** Every event before `k` is before `start` or before `end`, so reading gets as far as `k`. */
  predicate Reaches(events: seq<Bytes>, start: nat, end: nat, k: nat)
    requires AllEvents(events) && k <= |events|
  {
    forall i :: 0 <= i < k ==> Timestamp(events[i]) < start || Timestamp(events[i]) < end
  }

  /** An event is delivered exactly when it lies in the interval and reading gets as far as it. */
  lemma {:induction false} SelectedMembers(events: seq<Bytes>, start: nat, end: nat, e: Bytes)
    requires AllEvents(events)
    ensures e in Selected(events, start, end) <==>
      exists k :: 0 <= k < |events| && events[k] == e && start <= Timestamp(e) < end && Reaches(events, start, end, k)
  {
    if events != [] {
      var rest := events[1..];
      SelectedMembers(rest, start, end, e);
      if e in Selected(events, start, end) {
        if e in Selected(rest, start, end) && (Timestamp(events[0]) < start || Timestamp(events[0]) < end) {
          var k :| 0 <= k < |rest| && rest[k] == e && start <= Timestamp(e) < end && Reaches(rest, start, end, k);
          assert events[k + 1] == e && Reaches(events, start, end, k + 1);
        } else {
          assert events[0] == e && Reaches(events, start, end, 0);
        }
      }
      if k :| 0 <= k < |events| && events[k] == e && start <= Timestamp(e) < end && Reaches(events, start, end, k) {
        if k > 0 {
          assert rest[k - 1] == e && Reaches(rest, start, end, k - 1);
        }
      }
    }
  }

  // ---- the prologue ---------------------------------------------------------

  /** How a read ends: with more to come, at the end, or with an error. */
  datatype Status = More | End | BadMagic | Truncated | HeaderTooLong

  /** How far a delivery got: done with the event, out of room, or out of data. */
  datatype Delivery = Done | Full | Ended

  datatype Prologue = Saved(headerBuf: Bytes, rest: Bytes) | Refused(status: Status)

  /** saveMagicAndHeaderEvent. The length of the buffer is computed in 32 bits. */
  function ReadPrologue(b: Bytes): (p: Prologue)
    ensures p.Refused? ==> p.status != More
    ensures p.Saved? ==> p.headerBuf != [] && p.headerBuf + p.rest == b
  {
    if b == [] then Refused(End)
    else if |b| < 4 then Refused(Truncated)
    else if b[..4] != MAGIC then Refused(BadMagic)
    else if |b| < 4 + HEADER_SIZE then Refused(End)
    else
      var length := EventLength(b[4..]);
      if 4 + length >= UINT32 then Refused(HeaderTooLong)
      else if |b| < 4 + length then Refused(Truncated)
      else Saved(b[..4 + length], b[4 + length..])
  }

  /** How each prologue ends: saved with the length that its header event claims, or refused for the first thing missing. */
  lemma PrologueExactly(b: Bytes)
    ensures ReadPrologue(b) == Refused(BadMagic) <==> |b| >= 4 && b[..4] != [0xFE, 0x62, 0x69, 0x6E]
    ensures ReadPrologue(b) == Refused(End) <==> b == [] || (4 <= |b| < 17 && b[..4] == [0xFE, 0x62, 0x69, 0x6E])
    ensures 0 < |b| < 4 ==> ReadPrologue(b) == Refused(Truncated)
    ensures |b| >= 17 && b[..4] == [0xFE, 0x62, 0x69, 0x6E] ==>
      var n := 4 + Decode(b[13..17]);
      ReadPrologue(b) == if n >= 0x1_0000_0000 then Refused(HeaderTooLong)
                         else if |b| < n then Refused(Truncated)
                         else Saved(b[..n], b[n..])
  {
    hide Decode;
    if |b| >= 17 {
      assert b[4..][9..13] == b[13..17];
    }
  }

  // ---- the reader -----------------------------------------------------------

  class BinlogReader {
    const startTS: nat
    const endTS: nat
    var rest: Bytes
    var headerBuf: Bytes
    var headerSaved: bool
    var intervalEntered: bool
    var intervalLeft: bool
    var tail: nat

    /** How much of the current event there is. */
    ghost function Current(): (k: nat)
      reads this
      ensures k <= |rest| && k <= tail && (k == |rest| || k == tail)
    {
      Min(tail, |rest|)
    }

    ghost predicate Valid()
      reads this
    {
      && (headerSaved ==> Walkable(rest[Current()..], startTS, endTS))
      && (!headerSaved && ReadPrologue(rest).Saved? ==> Walkable(ReadPrologue(rest).rest, startTS, endTS))
      && (!headerSaved ==> !intervalEntered)
      && (!intervalEntered ==> tail == 0)
      && (intervalEntered && headerBuf != [] ==> Current() > 0)
    }

    ghost predicate Readable()
      reads this
    {
      headerSaved || ReadPrologue(rest).Saved?
    }

    /** The bytes still to be delivered before the end. */
    ghost function Pending(): Bytes
      requires Readable()
      reads this
    {
      if intervalEntered then headerBuf + rest[..Current()] + Deliverable(rest[Current()..], startTS, endTS)
      else if headerSaved then Filtered(headerBuf, rest, startTS, endTS)
      else Filtered(ReadPrologue(rest).headerBuf, ReadPrologue(rest).rest, startTS, endTS)
    }

    constructor (binlog: Bytes, startTS: nat, endTS: nat)
      requires ReadPrologue(binlog).Saved? ==> Walkable(ReadPrologue(binlog).rest, startTS, endTS)
      ensures Valid() && !headerSaved && !intervalEntered && rest == binlog
      ensures this.startTS == startTS && this.endTS == endTS
    {
      this.startTS, this.endTS, rest := startTS, endTS, binlog;
      headerBuf, headerSaved, intervalEntered, intervalLeft, tail := [], false, false, false, 0;
    }

    method SaveMagicAndHeaderEvent() returns (status: Status)
      requires Valid() && !headerSaved
      modifies this
      ensures status == match old(ReadPrologue(rest)) case Saved(_, _) => More case Refused(s) => s
      ensures status == More ==> Valid() && headerSaved && old(Readable()) && Pending() == old(Pending())
    {
      hide EventLength, Walkable, Deliverable;
      var prologue := ReadPrologue(rest);
      if prologue.Refused? {
        return prologue.status;
      }
      headerBuf, rest, headerSaved := prologue.headerBuf, prologue.rest, true;
      assert rest[0..] == rest;
      return More;
    }

    /** Part of the saved prologue; `room` is what is left of the caller's buffer. */
    method ReadMagicAndHeaderEvent(room: nat) returns (out: Bytes)
      requires Valid() && headerSaved && intervalEntered
      modifies this`headerBuf
      ensures Valid() && out + headerBuf == old(headerBuf) && |out| <= room
      ensures headerBuf == [] || |out| == room
      ensures out + Pending() == old(Pending())
    {
      hide ReadPrologue, Walkable, Deliverable;
      var limit := Min(|headerBuf|, room);
      out := headerBuf[..limit];
      headerBuf := headerBuf[limit..];
      ghost var current, later := rest[..Current()], Deliverable(rest[Current()..], startTS, endTS);
      assert out + (headerBuf + current + later) == (out + headerBuf) + current + later;
    }

    /**
     * Part of the current event: the underlying reader may return any positive number of bytes up to the limit, and the
     * end when the data ends inside the event.
     */
    method ReadEvent(room: nat) returns (out: Bytes, status: Status)
      requires Valid() && headerSaved && intervalEntered && tail > 0 && (room > 0 ==> headerBuf == [])
      modifies this
      ensures headerSaved && intervalEntered && headerBuf == old(headerBuf) && |out| <= room
      ensures status == End <==> room > 0 && old(rest) == []
      ensures status == End ==> out == [] && old(Pending()) == []
      ensures status != End ==> status == More && Valid() && (room > 0 ==> out != [])
      ensures tail == old(tail) - |out| && out + rest == old(rest) && out + Pending() == old(Pending())
    {
      hide ReadPrologue, Walkable, Deliverable;
      if room > 0 && rest == [] {
        assert rest[..Current()] == [] && rest[Current()..] == [];
        NothingDeliverable(startTS, endTS);
        return [], End;
      }
      var limit := Min(Min(tail, room), |rest|);
      var read := 0;
      if limit > 0 {
        read :| 1 <= read <= limit;
      }
      CutFront(headerBuf, rest, Current(), read, Deliverable(rest[Current()..], startTS, endTS));
      out := rest[..read];
      rest, tail := rest[read..], tail - read;
      return out, More;
    }

    /** Looks at the next event: skips it, stops before it, or makes it the current one. */
    method NextEvent() returns (status: Status)
      requires Valid() && headerSaved && tail == 0
      modifies this
      ensures status == End || status == More
      ensures status == End ==> old(Pending()) == []
      ensures status == More ==>
        Valid() && headerSaved && Pending() == old(Pending())
        && (|rest| < |old(rest)| || (|rest| == |old(rest)| && tail > 0))
    {
      hide EventLength, Timestamp, Decode;
      assert headerBuf == [] || !intervalEntered;
      assert rest[0..] == rest && rest[..0] == [];
      if |rest| < HEADER_SIZE {
        return End;
      }
      var timestamp, length := Timestamp(rest), EventLength(rest);
      if timestamp < startTS {
        if |rest| < length {
          rest := [];
          return End;
        }
        rest := rest[length..];
        assert rest[0..] == rest && rest[..0] == [];
        return More;
      }
      intervalEntered := true;
      if timestamp >= endTS {
        intervalLeft := true;
        return End;
      }
      EnterEvent(headerBuf, rest, startTS, endTS);
      tail := length;
      return More;
    }

    /** One call with a buffer of `blen` bytes: the next pending bytes, at least one unless the end is reached. */
    method Read(blen: nat) returns (out: Bytes, status: Status)
      requires Valid()
      modifies this
      ensures |out| <= blen
      ensures !old(Readable()) ==> out == [] && status == old(ReadPrologue(rest)).status
      ensures old(Readable()) ==> status == More || status == End
      ensures old(Readable()) && status == More ==>
        Valid() && Readable() && out + Pending() == old(Pending()) && (blen > 0 ==> out != [])
      ensures old(Readable()) && status == End ==> out == old(Pending())
    {
      hide ReadPrologue, Walkable, Deliverable, Filtered;
      if !headerSaved {
        status := SaveMagicAndHeaderEvent();
        if status != More {
          return [], status;
        }
      }
      out, status := ReadEvents(blen);
    }

    /** The loop of Read. */
    method ReadEvents(blen: nat) returns (out: Bytes, status: Status)
      requires Valid() && headerSaved
      modifies this
      ensures |out| <= blen && (status == More || status == End)
      ensures status == More ==> Valid() && headerSaved && out + Pending() == old(Pending()) && (blen > 0 ==> out != [])
      ensures status == End ==> out == old(Pending())
    {
      hide ReadPrologue, Walkable, Deliverable, Filtered, Pending;
      out := [];
      assert [] + Pending() == Pending();
      while |out| < blen
        invariant Valid() && headerSaved && |out| <= blen && out + Pending() == old(Pending())
        decreases |rest|, if tail == 0 then 1 else 0
      {
        var part, state := Deliver(blen - |out|);
        assert out + (part + Pending()) == (out + part) + Pending();
        out := out + part;
        if state == Ended {
          assert out + [] == out;
          return out, End;
        }
        if state == Full {
          return out, More;
        }
        var next := NextEvent();
        if next == End {
          assert out + [] == out;
          return out, End;
        }
      }
      return out, More;
    }

    /** The saved prologue and the current event, as far as they fit and as far as there is data. */
    method Deliver(room: nat) returns (part: Bytes, state: Delivery)
      requires Valid() && headerSaved && room > 0
      modifies this
      ensures headerSaved && |part| <= room && part + Pending() == old(Pending())
      ensures state == Ended ==> Pending() == []
      ensures state != Ended ==> Valid()
      ensures state == Full ==> part != []
      ensures state == Done ==> tail == 0 && (if old(tail) > 0 then |rest| < |old(rest)| else rest == old(rest))
    {
      hide ReadPrologue, Walkable, Deliverable, Filtered, Pending;
      part := [];
      assert [] + Pending() == Pending();
      if intervalEntered && |headerBuf| > 0 {
        part := ReadMagicAndHeaderEvent(room);
        if |headerBuf| > 0 {
          return part, Full;
        }
      }
      if tail > 0 {
        var piece, status := ReadEvent(room - |part|);
        assert part + (piece + Pending()) == (part + piece) + Pending();
        part := part + piece;
        if status == End {
          assert [] + Pending() == Pending();
          return part, Ended;
        }
        if tail > 0 {
          return part, Full;
        }
      }
      return part, Done;
    }

    /** Reading to the end with buffers of any sizes. */
    method ReadAll() returns (all: Bytes, status: Status)
      requires Valid()
      modifies this
      ensures old(Readable()) ==> status == End && all == old(Pending())
      ensures !old(Readable()) ==> all == [] && status == old(ReadPrologue(rest)).status
    {
      hide ReadPrologue, Walkable, Deliverable, Filtered, Pending;
      var blen: nat :| blen > 0;
      all, status := Read(blen);
      if status == More {
        var more := ReadRest();
        all, status := all + more, End;
      }
    }

    method ReadRest() returns (all: Bytes)
      requires Valid() && Readable()
      modifies this
      ensures all == old(Pending())
    {
      hide ReadPrologue, Walkable, Deliverable, Filtered, Pending;
      all := [];
      assert [] + Pending() == Pending();
      while true
        invariant Valid() && Readable() && all + Pending() == old(Pending())
        decreases |Pending()|
      {
        var blen: nat :| blen > 0;
        var part, status := Read(blen);
        if status == End {
          return all + part;
        }
        assert all + (part + Pending()) == (all + part) + Pending();
        all := all + part;
      }
    }
  }

  /**
   * Filtering does not depend on chunking: read with any buffers and any short reads, a binlog gives the magic, the
   * header event and what its events in the interval are, or nothing when there is no such event.
   */
  method FilterBinlog(binlog: Bytes, startTS: nat, endTS: nat) returns (out: Bytes, status: Status)
    requires ReadPrologue(binlog).Saved? ==> Walkable(ReadPrologue(binlog).rest, startTS, endTS)
    ensures ReadPrologue(binlog).Saved? ==>
      status == End && out == Filtered(ReadPrologue(binlog).headerBuf, ReadPrologue(binlog).rest, startTS, endTS)
    ensures ReadPrologue(binlog).Refused? ==> status == ReadPrologue(binlog).status && out == []
  {
    hide ReadPrologue, Walkable, Filtered;
    var reader := new BinlogReader(binlog, startTS, endTS);
    out, status := reader.ReadAll();
  }

  /** Bytes that leave the front of the current event come before the rest of it. */
  lemma CutFront(headerBuf: Bytes, b: Bytes, k: nat, read: nat, later: Bytes)
    requires read <= k <= |b| && (read == 0 || headerBuf == [])
    ensures b[..read] + b[read..] == b && b[read..][k - read..] == b[k..]
    ensures b[..read] + (headerBuf + b[read..][..k - read] + later) == headerBuf + b[..k] + later
  {
    assert b[..read] + b[read..][..k - read] == b[..k];
  }

  lemma NothingDeliverable(start: nat, end: nat)
    ensures Deliverable([], start, end) == [] && Walkable([], start, end)
  {
  }

  /** The next event is cut off in front, and the prologue goes before it. */
  lemma EnterEvent(headerBuf: Bytes, b: Bytes, start: nat, end: nat)
    requires |b| >= HEADER_SIZE && start <= Timestamp(b) < end && Walkable(b, start, end)
    ensures var k := Min(EventLength(b), |b|);
      && k > 0 && Walkable(b[k..], start, end) && Deliverable(b, start, end) != []
      && headerBuf + Deliverable(b, start, end) == headerBuf + b[..k] + Deliverable(b[k..], start, end)
  {
    hide EventLength, Timestamp;
    var length := EventLength(b);
    if |b| < length {
      assert b[|b|..] == [] && b[..|b|] == b;
      NothingDeliverable(start, end);
      assert headerBuf + b + [] == headerBuf + b;
    } else {
      assert Deliverable(b, start, end)[..length] == b[..length];
      assert headerBuf + (b[..length] + Deliverable(b[length..], start, end))
          == headerBuf + b[..length] + Deliverable(b[length..], start, end);
    }
  }

  lemma EventParses(e: Bytes, rest: Bytes)
    requires IsEvent(e)
    ensures |e| >= HEADER_SIZE && EventLength(e + rest) == |e| && Timestamp(e + rest) == Timestamp(e)
    ensures (e + rest)[..|e|] == e && (e + rest)[|e|..] == rest
  {
    hide Decode;
    assert (e + rest)[9..13] == e[9..13] && (e + rest)[0..4] == e[0..4];
  }

  // ---- events by their fields -----------------------------------------------

  /** An event as the server writes it: timestamp, type, server, total length, and the rest. */
  datatype Event = Event(timestamp: nat, kind: Byte, server: nat, body: Bytes)

  predicate ValidEvent(e: Event) {
    e.timestamp < UINT32 && e.server < UINT32 && HEADER_SIZE + |e.body| < UINT32
  }

  predicate AllValidEvents(es: seq<Event>) {
    forall i :: 0 <= i < |es| ==> ValidEvent(es[i])
  }

  function EncodeEvent(e: Event): (b: Bytes)
    ensures |b| == HEADER_SIZE + |e.body|
  {
    Encode(e.timestamp, 4) + [e.kind] + Encode(e.server, 4) + Encode(HEADER_SIZE + |e.body|, 4) + e.body
  }

  function EncodeEvents(es: seq<Event>): (bs: seq<Bytes>)
    ensures |bs| == |es|
  {
    seq(|es|, i requires 0 <= i < |es| => EncodeEvent(es[i]))
  }

  /** The header of a written event reads back. */
  lemma EventReads(e: Event)
    requires ValidEvent(e)
    ensures IsEvent(EncodeEvent(e)) && Timestamp(EncodeEvent(e)) == e.timestamp
  {
    hide Encode, Decode;
    var b := EncodeEvent(e);
    assert b[0..4] == Encode(e.timestamp, 4) && b[9..13] == Encode(HEADER_SIZE + |e.body|, 4);
    DecodeEncode4(e.timestamp);
    DecodeEncode4(HEADER_SIZE + |e.body|);
  }

  /** Event `k` lies in the interval and no event before it lies behind the end of the interval. */
  predicate InInterval(es: seq<Event>, start: nat, end: nat, k: nat)
    requires k < |es|
  {
    && start <= es[k].timestamp < end
    && forall j :: 0 <= j < k ==> es[j].timestamp < start || es[j].timestamp < end
  }

  /** Those of the first `n` events that are to be delivered. */
  function Wanted(es: seq<Event>, start: nat, end: nat, n: nat): seq<Event>
    requires n <= |es|
  {
    if n == 0 then []
    else Wanted(es, start, end, n - 1) + if InInterval(es, start, end, n - 1) then [es[n - 1]] else []
  }

  /** No event among the first `n` ends the interval. */
  predicate Open(es: seq<Event>, start: nat, end: nat, n: nat)
    requires n <= |es|
  {
    forall j :: 0 <= j < n ==> es[j].timestamp < start || es[j].timestamp < end
  }

  lemma {:induction false} ClosedStays(es: seq<Event>, start: nat, end: nat, m: nat, n: nat)
    requires m <= n <= |es| && !Open(es, start, end, m)
    ensures Wanted(es, start, end, n) == Wanted(es, start, end, m)
    decreases n - m
  {
    if m < n {
      ClosedStays(es, start, end, m, n - 1);
      var j :| 0 <= j < m && !(es[j].timestamp < start || es[j].timestamp < end);
      assert !InInterval(es, start, end, n - 1);
    }
  }

  /** Going through the events one by one delivers exactly those. */
  lemma {:induction false} SelectedIsWanted(es: seq<Event>, start: nat, end: nat, n: nat)
    requires AllValidEvents(es) && n <= |es| && Open(es, start, end, n)
    ensures AllEvents(EncodeEvents(es))
    ensures Concat(EncodeEvents(Wanted(es, start, end, |es|)))
         == Concat(EncodeEvents(Wanted(es, start, end, n))) + Concat(Selected(EncodeEvents(es)[n..], start, end))
    decreases |es| - n
  {
    hide EncodeEvent, Concat, InInterval;
    AllWritten(es);
    var rest := EncodeEvents(es)[n..];
    var done := Wanted(es, start, end, n);
    if n == |es| {
      NothingMore(EncodeEvents(done), start, end);
      assert rest == [];
    } else {
      EventReads(es[n]);
      assert rest[0] == EncodeEvent(es[n]) && rest[1..] == EncodeEvents(es)[n + 1..];
      if es[n].timestamp < start || es[n].timestamp < end {
        SelectedIsWanted(es, start, end, n + 1);
        NextWanted(es, start, end, n);
        if start <= es[n].timestamp {
          var later := Selected(rest[1..], start, end);
          ConcatAppend([rest[0]], later);
          ConcatOne(rest[0]);
          assert Concat(EncodeEvents(done)) + rest[0] + Concat(later) == Concat(EncodeEvents(done)) + (rest[0] + Concat(later));
        }
      } else {
        ClosedStays(es, start, end, n + 1, |es|);
        NextWanted(es, start, end, n);
        NothingMore(EncodeEvents(done), start, end);
      }
    }
  }

  lemma AllWritten(es: seq<Event>)
    requires AllValidEvents(es)
    ensures AllEvents(EncodeEvents(es))
  {
    forall i | 0 <= i < |es|
      ensures IsEvent(EncodeEvent(es[i]))
    {
      EventReads(es[i]);
    }
  }

  lemma NothingMore(bs: seq<Bytes>, start: nat, end: nat)
    ensures Concat(bs) == Concat(bs) + Concat([]) && Selected([], start, end) == []
  {
    assert Concat([]) == [];
  }

  /** One more event, with everything before it leaving the interval open. */
  lemma NextWanted(es: seq<Event>, start: nat, end: nat, n: nat)
    requires n < |es| && Open(es, start, end, n)
    ensures var done, next := Wanted(es, start, end, n), Wanted(es, start, end, n + 1);
      if start <= es[n].timestamp < end then Concat(EncodeEvents(next)) == Concat(EncodeEvents(done)) + EncodeEvent(es[n])
      else next == done
  {
    hide EncodeEvent, Concat;
    var done := Wanted(es, start, end, n);
    if start <= es[n].timestamp < end {
      assert EncodeEvents(done + [es[n]]) == EncodeEvents(done) + [EncodeEvent(es[n])];
      ConcatAppend(EncodeEvents(done), [EncodeEvent(es[n])]);
      ConcatOne(EncodeEvent(es[n]));
    }
  }

  /** The prologue of a written binlog is its magic and its first event. */
  lemma PrologueReads(header: Event, rest: Bytes)
    requires ValidEvent(header) && 4 + HEADER_SIZE + |header.body| < UINT32
    ensures ReadPrologue(MAGIC + EncodeEvent(header) + rest) == Saved(MAGIC + EncodeEvent(header), rest)
  {
    hide EncodeEvent, Timestamp;
    var b := MAGIC + EncodeEvent(header) + rest;
    EventReads(header);
    assert b[4..] == EncodeEvent(header) + rest && b[..4] == MAGIC;
    EventParses(EncodeEvent(header), rest);
    var n := 4 + |EncodeEvent(header)|;
    assert b[..n] == MAGIC + EncodeEvent(header) && b[n..] == rest;
  }

  /**
   * Filtering a written binlog: the magic, the header event and the events in the interval as they were written, in order,
   * or nothing when there is none.
   */
  method FilterEvents(header: Event, events: seq<Event>, startTS: nat, endTS: nat) returns (out: Bytes, status: Status)
    requires ValidEvent(header) && 4 + HEADER_SIZE + |header.body| < UINT32 && AllValidEvents(events)
    ensures status == End
    ensures var wanted := Wanted(events, startTS, endTS, |events|);
      out == if wanted == [] then [] else MAGIC + EncodeEvent(header) + Concat(EncodeEvents(wanted))
  {
    hide EncodeEvent, ReadPrologue, Walkable, Deliverable, Concat, Selected, Wanted, AllEvents;
    var binlog := MAGIC + EncodeEvent(header) + Concat(EncodeEvents(events));
    PrologueReads(header, Concat(EncodeEvents(events)));
    WantedDelivered(events, startTS, endTS);
    out, status := FilterBinlog(binlog, startTS, endTS);
  }

  lemma WantedDelivered(es: seq<Event>, start: nat, end: nat)
    requires AllValidEvents(es)
    ensures var b, wanted := Concat(EncodeEvents(es)), Wanted(es, start, end, |es|);
      && Walkable(b, start, end) && Deliverable(b, start, end) == Concat(EncodeEvents(wanted))
      && (wanted == [] <==> Deliverable(b, start, end) == [])
  {
    hide EncodeEvent, Walkable, Deliverable, Selected;
    SelectedIsWanted(es, start, end, 0);
    WholeEvents(EncodeEvents(es), start, end);
    assert EncodeEvents(es)[0..] == EncodeEvents(es);
    assert EncodeEvents(Wanted(es, start, end, 0)) == [] && Concat([]) == [];
    assert [] + Concat(Selected(EncodeEvents(es), start, end)) == Concat(Selected(EncodeEvents(es), start, end));
    var wanted := EncodeEvents(Wanted(es, start, end, |es|));
    if wanted != [] {
      assert Concat(wanted) == wanted[0] + Concat(wanted[1..]) && |wanted[0]| > 0;
    }
  }

  /** Whole events before anything else, when none of them ends the interval. */
  lemma {:induction false} EventsThen(events: seq<Bytes>, rest: Bytes, start: nat, end: nat)
    requires AllEvents(events) && Reaches(events, start, end, |events|)
    ensures Deliverable(Concat(events) + rest, start, end)
         == Concat(Selected(events, start, end)) + Deliverable(rest, start, end)
  {
    hide EventLength, Timestamp;
    if events == [] {
      assert Concat(events) + rest == rest && Concat(Selected(events, start, end)) == [];
    } else {
      var first, later := events[0], events[1..];
      assert Reaches(later, start, end, |later|);
      EventsThen(later, rest, start, end);
      EventParses(first, Concat(later) + rest);
      assert Concat(events) + rest == first + (Concat(later) + rest);
      assert Timestamp(first) < start || Timestamp(first) < end;
    }
  }

  /** A last event that the data cuts behind its header is delivered as far as it goes, if it lies in the interval. */
  lemma CutEventDelivered(events: seq<Bytes>, e: Event, m: nat, start: nat, end: nat)
    requires AllEvents(events) && Reaches(events, start, end, |events|)
    requires ValidEvent(e) && HEADER_SIZE <= m < HEADER_SIZE + |e.body|
    ensures Deliverable(Concat(events) + EncodeEvent(e)[..m], start, end)
         == Concat(Selected(events, start, end)) + if start <= e.timestamp < end then EncodeEvent(e)[..m] else []
  {
    hide EncodeEvent, Concat, Selected;
    var b := EncodeEvent(e);
    EventReads(e);
    assert b[..m][0..4] == b[0..4] && b[..m][9..13] == b[9..13];
    EventsThen(events, b[..m], start, end);
  }

  /** Fewer bytes than an event header are never delivered. */
  lemma CutHeaderDropped(events: seq<Bytes>, rest: Bytes, start: nat, end: nat)
    requires AllEvents(events) && Reaches(events, start, end, |events|) && |rest| < HEADER_SIZE
    ensures Deliverable(Concat(events) + rest, start, end) == Concat(Selected(events, start, end))
  {
    EventsThen(events, rest, start, end);
    assert Concat(Selected(events, start, end)) + [] == Concat(Selected(events, start, end));
  }
}
