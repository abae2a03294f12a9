/** Cutting a replication stream into WAL segments: WalSegment and the loop of the WAL receiver. */
module WalStream {
  import opened Bytes

  datatype Message =
    | Keepalive(replyRequested: bool)
    | XLogData(start: nat, data: Bytes)
    | CopyDone
    | Unknown

  datatype Outcome = Processed | ReplyRequested | Done | UnknownMessage | SegmentGap | Mismatch

  /** A segment as a value: where it starts, how long it gets, what is written, and the message that ran past its end. */
  datatype Segment = Segment(start: nat, size: nat, written: Bytes, lastMsg: Option<Message>) {
    predicate IsComplete() {
      |written| >= size
    }
  }

  /** NewWalSegment: the start is rounded down to a segment boundary. */
  function New(location: nat, size: nat): Segment
    requires size > 0
  {
    Segment(location / size * size, size, [], None)
  }

  /** How much of a message lies before the segment. */
  function Offset(seg: Segment, start: nat): nat {
    if start < seg.start then seg.start - start else 0
  }

  /** What is wrong with an XLogData message, if anything. */
  function Verdict(seg: Segment, start: nat, data: Bytes): Outcome {
    if start > seg.start + seg.size || start + |data| < seg.start then Mismatch
    else if seg.start + |seg.written| != start + Offset(seg, start) then SegmentGap
    else Processed
  }

  function Process(seg: Segment, msg: Message): (Outcome, Segment)
    requires |seg.written| <= seg.size
  {
    match msg
    case Keepalive(reply) => (if reply then ReplyRequested else Processed, seg)
    case CopyDone => (Done, seg)
    case Unknown => (UnknownMessage, seg)
    case XLogData(start, data) =>
      if Verdict(seg, start, data) != Processed then (Verdict(seg, start, data), seg)
      else
        var rest := data[Offset(seg, start)..];
        var copied := Min(seg.size - |seg.written|, |rest|);
        (Processed, seg.(written := seg.written + rest[..copied],
                         lastMsg := if copied < |rest| then Some(msg) else seg.lastMsg))
  }

  /**
   * A message is accepted exactly when it starts at the write position, or when nothing is written yet and it reaches
   * into the segment from before; every other message leaves the segment as it was.
   */
  lemma AcceptedExactly(seg: Segment, start: nat, data: Bytes)
    requires |seg.written| <= seg.size
    ensures Process(seg, XLogData(start, data)).0 == Processed <==>
      start == seg.start + |seg.written| || (start < seg.start <= start + |data| && seg.written == [])
    ensures Process(seg, XLogData(start, data)).0 != Processed ==> Process(seg, XLogData(start, data)).1 == seg
    ensures Process(seg, XLogData(start, data)).0 == Mismatch <==>
      start > seg.start + seg.size || start + |data| < seg.start
  {
  }

  /** NextWalSegment: the message that crossed the boundary is processed again. */
  function Next(seg: Segment): Option<Segment>
    requires seg.size > 0
  {
    if !seg.IsComplete() then None
    else
      var next := New(seg.start + seg.size, seg.size);
      if seg.lastMsg.None? then Some(next)
      else
        var (outcome, after) := Process(next, seg.lastMsg.value);
        if outcome == Processed then Some(after) else None
  }

  class WalSegment {
    const startLSN: nat
    const endLSN: nat
    const data: array<Byte>
    var writeIndex: nat
    var lastMsg: Option<Message>

    ghost predicate Valid()
      reads this
    {
      data.Length > 0 && endLSN == startLSN + data.Length && writeIndex <= data.Length
    }

    ghost function Value(): (v: Segment)
      requires Valid()
      reads this, data
      ensures |v.written| <= v.size && v.size > 0
    {
      Segment(startLSN, data.Length, data[..writeIndex], lastMsg)
    }

    constructor (location: nat, walSegmentBytes: nat)
      requires walSegmentBytes > 0
      ensures Valid() && fresh(data) && Value() == New(location, walSegmentBytes)
    {
      startLSN := location / walSegmentBytes * walSegmentBytes;
      endLSN := location / walSegmentBytes * walSegmentBytes + walSegmentBytes;
      data := new Byte[walSegmentBytes](_ => 0);
      writeIndex, lastMsg := 0, None;
    }

    method IsComplete() returns (complete: bool)
      requires Valid()
      ensures complete <==> Value().IsComplete()
    {
      return startLSN + writeIndex >= endLSN;
    }

    method ProcessMessage(msg: Message) returns (outcome: Outcome)
      requires Valid()
      modifies this, data
      ensures Valid() && outcome == Process(old(Value()), msg).0 && Value() == Process(old(Value()), msg).1
    {
      match msg
      case Keepalive(reply) => return if reply then ReplyRequested else Processed;
      case CopyDone => return Done;
      case Unknown => return UnknownMessage;
      case XLogData(start, walData) =>
        if start > endLSN {
          return Mismatch;
        }
        if start + |walData| < startLSN {
          return Mismatch;
        }
        var messageOffset := if start < startLSN then startLSN - start else 0;
        if startLSN + writeIndex != start + messageOffset {
          return SegmentGap;
        }
        var copied := Copy(walData[messageOffset..]);
        if copied < |walData[messageOffset..]| {
          lastMsg := Some(msg);
        }
        return Processed;
    }

    /** The built-in copy into the rest of the buffer. */
    method Copy(bytes: Bytes) returns (copied: nat)
      requires Valid()
      modifies this`writeIndex, data
      ensures Valid() && copied == Min(data.Length - old(writeIndex), |bytes|)
      ensures writeIndex == old(writeIndex) + copied && data[..writeIndex] == old(data[..writeIndex]) + bytes[..copied]
    {
      ghost var before := data[..writeIndex];
      var from := writeIndex;
      copied := 0;
      while from + copied < data.Length && copied < |bytes|
        invariant 0 <= copied <= |bytes| && from + copied <= data.Length && writeIndex == from
        invariant data[..from + copied] == before + bytes[..copied]
      {
        data[from + copied] := bytes[copied];
        copied := copied + 1;
      }
      writeIndex := writeIndex + copied;
    }

    method NextWalSegment() returns (next: WalSegment?)
      requires Valid()
      ensures next == null <==> Next(Value()).None?
      ensures next != null ==> fresh(next) && fresh(next.data) && next.Valid() && Some(next.Value()) == Next(Value())
    {
      var complete := IsComplete();
      if !complete {
        return null;
      }
      var segment := new WalSegment(endLSN, data.Length);
      if lastMsg.Some? {
        var outcome := segment.ProcessMessage(lastMsg.value);
        if outcome != Processed {
          return null;
        }
      }
      return segment;
    }
  }

  // ---- the receiver ---------------------------------------------------------

  /**
   * The segments uploaded so far, the one being filled, and the positions reported to the server as written: one whenever
   * a segment is begun, and one for every reply the server requests.
   */
  datatype Receiver = Receiver(uploaded: seq<Bytes>, segment: Segment, reports: seq<nat>)

  function Begin(location: nat, size: nat): Receiver
    requires size > 0
  {
    Receiver([], New(location, size), [New(location, size).start])
  }

  /** One message through Stream and, when the segment is complete, its upload and NextWalSegment. */
  function Step(rx: Receiver, msg: Message): Option<Receiver>
    requires 0 < rx.segment.size && |rx.segment.written| <= rx.segment.size
  {
    var (outcome, seg) := Process(rx.segment, msg);
    if outcome != Processed && outcome != ReplyRequested then None
    else if !seg.IsComplete() then
      Some(Receiver(rx.uploaded, seg, rx.reports + if outcome == ReplyRequested then [seg.start] else []))
    else
      var next := Next(seg);
      if next.None? then None
      else Some(Receiver(rx.uploaded + [seg.written], next.value, rx.reports + [next.value.start]))
  }

  lemma StepFits(rx: Receiver, msg: Message)
    requires 0 < rx.segment.size && |rx.segment.written| <= rx.segment.size && Step(rx, msg).Some?
    ensures var after := Step(rx, msg).value;
      |after.segment.written| <= after.segment.size == rx.segment.size
  {
  }

  function Run(rx: Receiver, msgs: seq<Message>): Option<Receiver>
    requires 0 < rx.segment.size && |rx.segment.written| <= rx.segment.size
    decreases |msgs|
  {
    if msgs == [] then Some(rx)
    else
      var next := Step(rx, msgs[0]);
      if next.None? then None else
      StepFits(rx, msgs[0]);
      Run(next.value, msgs[1..])
  }

  method Receive(location: nat, walSegmentBytes: nat, msgs: seq<Message>) returns (r: Option<Receiver>)
    requires walSegmentBytes > 0
    ensures r == Run(Begin(location, walSegmentBytes), msgs)
  {
    hide Process, Next, New;
    var segment: WalSegment := new WalSegment(location, walSegmentBytes);
    var uploaded, reports := [], [segment.startLSN];
    for i := 0 to |msgs|
      invariant segment.Valid() && fresh(segment) && fresh(segment.data)
      invariant Run(Receiver(uploaded, segment.Value(), reports), msgs[i..]) == Run(Begin(location, walSegmentBytes), msgs)
    {
      assert msgs[i..][1..] == msgs[i + 1..];
      var outcome := segment.ProcessMessage(msgs[i]);
      if outcome != Processed && outcome != ReplyRequested {
        return None;
      }
      var complete := segment.IsComplete();
      if complete {
        uploaded := uploaded + [segment.data[..segment.writeIndex]];
        var next := segment.NextWalSegment();
        if next == null {
          return None;
        }
        segment := next;
        reports := reports + [segment.startLSN];
      } else if outcome == ReplyRequested {
        reports := reports + [segment.startLSN];
      } else {
        assert reports + [] == reports;
      }
    }
    return Some(Receiver(uploaded, Segment(segment.startLSN, segment.data.Length,
                                           segment.data[..segment.writeIndex], segment.lastMsg), reports));
  }

  // ---- assembly -------------------------------------------------------------

  /** Messages that carry the WAL on from position `p` without a gap, keepalives anywhere between. */
  predicate Contiguous(msgs: seq<Message>, p: nat)
    decreases |msgs|
  {
    msgs != [] ==>
      match msgs[0]
      case Keepalive(_) => Contiguous(msgs[1..], p)
      case XLogData(start, data) => start == p && Contiguous(msgs[1..], p + |data|)
      case _ => false
  }

  function Payload(msgs: seq<Message>): Bytes {
    if msgs == [] then []
    else (if msgs[0].XLogData? then msgs[0].data else []) + Payload(msgs[1..])
  }

  predicate AtMost(msgs: seq<Message>, size: nat) {
    forall i :: 0 <= i < |msgs| && msgs[i].XLogData? ==> |msgs[i].data| <= size
  }

  /** What has been assembled. */
  function Assembled(rx: Receiver): Bytes {
    Concat(rx.uploaded) + rx.segment.written
  }

  /** The receiver waits for position `p`, and nothing it has seen is outstanding. */
  predicate Waiting(rx: Receiver, p: nat) {
    && 0 < rx.segment.size && |rx.segment.written| <= rx.segment.size && Aligned(rx.segment.start, rx.segment.size)
    && rx.segment.lastMsg.None? && p == rx.segment.start + |rx.segment.written|
    && forall i :: 0 <= i < |rx.uploaded| ==> |rx.uploaded[i]| == rx.segment.size
  }

  /** A segment boundary: a whole number of segments from zero. */
  predicate Aligned(lsn: nat, size: nat)
    requires size > 0
  {
    lsn == 0 || (lsn >= size && Aligned(lsn - size, size))
  }

  lemma Boundary(start: nat, size: nat)
    requires size > 0 && Aligned(start, size)
    ensures Aligned(start + size, size)
  {
  }

  lemma {:induction false} WholeQuotient(q: nat, size: nat)
    requires size > 0
    ensures Aligned(q * size, size)
  {
    if q > 0 {
      WholeQuotient(q - 1, size);
      assert q * size == (q - 1) * size + size;
    }
  }

  /** Rounding down leaves a boundary alone. */
  lemma {:induction false} AlignedRounds(lsn: nat, size: nat)
    requires size > 0 && Aligned(lsn, size)
    ensures lsn / size * size == lsn
  {
    if lsn > 0 {
      AlignedRounds(lsn - size, size);
      var q := (lsn - size) / size;
      assert lsn == (q + 1) * size;
      MultipleRounds(lsn, q + 1, size);
    }
  }

  lemma MultipleRounds(x: nat, q: nat, size: nat)
    requires size > 0 && x == q * size
    ensures x / size * size == x
  {
    var d, r := x / size, x % size;
    assert x == d * size + r;
    assert (q - d) * size == r;
    if q > d {
      AtLeastOnce(q - d, size);
    } else if q < d {
      AtLeastOnce(d - q, size);
    }
  }

  lemma AtLeastOnce(k: nat, size: nat)
    requires k >= 1
    ensures k * size >= size
  {
  }

  lemma UploadAppends(rx: Receiver, seg: Bytes)
    ensures Concat(rx.uploaded + [seg]) == Concat(rx.uploaded) + seg
  {
    ConcatAppend(rx.uploaded, [seg]);
    ConcatOne(seg);
  }

  lemma NextStart(start: nat, size: nat)
    requires size > 0 && Aligned(start, size)
    ensures New(start + size, size) == Segment(start + size, size, [], None)
  {
    Boundary(start, size);
    AlignedRounds(start + size, size);
  }

  lemma KeepaliveStep(rx: Receiver, reply: bool, p: nat)
    requires Waiting(rx, p)
    ensures Step(rx, Keepalive(reply)) == Some(
      if |rx.segment.written| < rx.segment.size
      then rx.(reports := rx.reports + if reply then [rx.segment.start] else [])
      else Receiver(rx.uploaded + [rx.segment.written], Segment(p, rx.segment.size, [], None), rx.reports + [p]))
  {
    hide Aligned, New;
    NextStart(rx.segment.start, rx.segment.size);
  }

  lemma ShortStep(rx: Receiver, data: Bytes, p: nat)
    requires Waiting(rx, p) && |rx.segment.written| + |data| < rx.segment.size
    ensures Step(rx, XLogData(p, data)) == Some(rx.(segment := rx.segment.(written := rx.segment.written + data)))
  {
    hide Aligned, New;
    assert data[0..] == data && data[..|data|] == data && rx.reports + [] == rx.reports;
  }

  /** The part of a message past the segment goes to the next one. */
  lemma CrossingNext(seg: Segment, msg: Message, room: nat)
    requires 0 < seg.size == |seg.written| && Aligned(seg.start, seg.size) && msg.XLogData?
    requires room <= |msg.data| && msg.start + room == seg.start + seg.size
    requires seg.lastMsg == if room < |msg.data| then Some(msg) else None
    ensures Next(seg) == Some(
      var rest := msg.data[room..];
      Segment(seg.start + seg.size, seg.size, rest[..Min(seg.size, |rest|)], if seg.size < |rest| then Some(msg) else None))
  {
    hide Aligned, New;
    NextStart(seg.start, seg.size);
    var rest := msg.data[room..];
    assert [] + rest[..Min(seg.size, |rest|)] == rest[..Min(seg.size, |rest|)];
  }

  lemma LongStep(rx: Receiver, data: Bytes, p: nat)
    requires Waiting(rx, p) && |rx.segment.written| + |data| >= rx.segment.size
    ensures Step(rx, XLogData(p, data)) == Some(
      var seg, room := rx.segment, rx.segment.size - |rx.segment.written|;
      var rest := data[room..];
      Receiver(rx.uploaded + [seg.written + data[..room]],
               Segment(seg.start + seg.size, seg.size, rest[..Min(seg.size, |rest|)],
                       if seg.size < |rest| then Some(XLogData(p, data)) else None),
               rx.reports + [seg.start + seg.size]))
  {
    hide Aligned, New, Next;
    var seg, room, msg := rx.segment, rx.segment.size - |rx.segment.written|, XLogData(p, data);
    assert data[0..] == data;
    var full := seg.(written := seg.written + data[..room], lastMsg := if room < |data| then Some(msg) else None);
    assert Process(seg, msg) == (Processed, full);
    CrossingNext(full, msg, room);
  }

  // ---- runs -----------------------------------------------------------------

  /** What was received and has no room in the current segment: the end of the message that ran past it. */
  function Left(rx: Receiver): Bytes {
    match rx.segment.lastMsg
    case Some(XLogData(start, data)) =>
      var end := rx.segment.start + rx.segment.size;
      if start <= end <= start + |data| then data[end - start..] else []
    case _ => []
  }

  /** Everything before position `p` was received, and what is left over is ahead of a full segment. */
  predicate Receiving(rx: Receiver, p: nat) {
    && 0 < rx.segment.size && |rx.segment.written| <= rx.segment.size && Aligned(rx.segment.start, rx.segment.size)
    && p == rx.segment.start + |rx.segment.written| + |Left(rx)|
    && (rx.segment.lastMsg.Some? ==> Left(rx) != [] && |rx.segment.written| == rx.segment.size)
    && forall i :: 0 <= i < |rx.uploaded| ==> |rx.uploaded[i]| == rx.segment.size
  }

  lemma ReceivingFits(rx: Receiver, p: nat)
    requires Receiving(rx, p)
    ensures 0 < rx.segment.size && |rx.segment.written| <= rx.segment.size
  {
  }

  lemma LeftOverExactly(rx: Receiver, p: nat)
    requires Receiving(rx, p)
    ensures Left(rx) != [] <==> p > rx.segment.start + rx.segment.size
  {
    hide Aligned;
  }

  lemma Reassembled(a: Bytes, b: Bytes, data: Bytes, room: nat, kept: nat)
    requires room + kept <= |data|
    ensures a + (b + data[..room]) + data[room..][..kept] + data[room + kept..] == a + b + data
  {
    assert data[room..][..kept] == data[room..room + kept];
    assert data == data[..room] + data[room..room + kept] + data[room + kept..];
  }

  lemma LongLeft(rx: Receiver, msg: Message, room: nat)
    requires msg.XLogData? && room <= |msg.data| && 0 < rx.segment.size
    requires msg.start + room == rx.segment.start
    requires rx.segment.lastMsg == if rx.segment.size < |msg.data| - room then Some(msg) else None
    ensures Left(rx) == msg.data[room + Min(rx.segment.size, |msg.data| - room)..]
  {
  }

  lemma LongData(rx: Receiver, data: Bytes, p: nat)
    requires Waiting(rx, p) && |rx.segment.written| + |data| >= rx.segment.size
    ensures Step(rx, XLogData(p, data)).Some?
    ensures var after := Step(rx, XLogData(p, data)).value;
      && Receiving(after, p + |data|) && Assembled(after) + Left(after) == Assembled(rx) + data
      && after.segment.start == rx.segment.start + rx.segment.size && after.segment.size == rx.segment.size
  {
    hide Concat, Aligned, Step, Left;
    var seg := rx.segment;
    var room := seg.size - |seg.written|;
    LongStep(rx, data, p);
    Boundary(seg.start, seg.size);
    var after := Step(rx, XLogData(p, data)).value;
    LongLeft(after, XLogData(p, data), room);
    UploadAppends(rx, seg.written + data[..room]);
    Reassembled(Concat(rx.uploaded), seg.written, data, room, Min(seg.size, |data| - room));
  }

  /** A message is received completely when nothing is left over; at most one segment is uploaded for it. */
  lemma DataIsReceived(rx: Receiver, data: Bytes, p: nat)
    requires Receiving(rx, p) && Left(rx) == []
    ensures Step(rx, XLogData(p, data)).Some?
    ensures var after := Step(rx, XLogData(p, data)).value;
      && Receiving(after, p + |data|) && after.segment.size == rx.segment.size
      && Assembled(after) + Left(after) == Assembled(rx) + Left(rx) + data
      && after.segment.start == rx.segment.start
                                + if p + |data| >= rx.segment.start + rx.segment.size then rx.segment.size else 0
  {
    hide Concat, Aligned, Step;
    assert Assembled(rx) + [] + data == Assembled(rx) + data;
    if |rx.segment.written| + |data| >= rx.segment.size {
      LongData(rx, data, p);
    } else {
      ShortStep(rx, data, p);
      assert Concat(rx.uploaded) + (rx.segment.written + data) + [] == Assembled(rx) + data;
    }
  }

  /** With something left over every further message is refused. */
  lemma LeftOverRefuses(rx: Receiver, more: Bytes, p: nat)
    requires Receiving(rx, p) && Left(rx) != []
    ensures Step(rx, XLogData(p, more)).None?
  {
    hide Aligned, Next;
  }

  lemma FullStep(rx: Receiver, reply: bool, p: nat)
    requires Receiving(rx, p) && Left(rx) != []
    ensures Step(rx, Keepalive(reply)) == Some(
      var seg, left := rx.segment, Left(rx);
      Receiver(rx.uploaded + [seg.written],
               Segment(seg.start + seg.size, seg.size, left[..Min(seg.size, |left|)],
                       if seg.size < |left| then seg.lastMsg else None),
               rx.reports + [seg.start + seg.size]))
  {
    hide Aligned, New, Next;
    var seg := rx.segment;
    CrossingNext(seg, seg.lastMsg.value, seg.start + seg.size - seg.lastMsg.value.start);
  }

  /** A keepalive after a full segment uploads it and makes room for one more. */
  lemma KeepaliveMakesRoom(rx: Receiver, reply: bool, p: nat)
    requires Receiving(rx, p)
    ensures Step(rx, Keepalive(reply)).Some?
    ensures var after := Step(rx, Keepalive(reply)).value;
      && Receiving(after, p) && after.segment.size == rx.segment.size
      && Assembled(after) + Left(after) == Assembled(rx) + Left(rx)
      && after.segment.start == rx.segment.start + if p >= rx.segment.start + rx.segment.size then rx.segment.size else 0
  {
    hide Concat, Aligned, Step;
    var seg, left := rx.segment, Left(rx);
    Boundary(seg.start, seg.size);
    UploadAppends(rx, seg.written);
    if left == [] {
      KeepaliveStep(rx, reply, p);
      assert Concat(rx.uploaded) + seg.written + [] + [] == Concat(rx.uploaded) + seg.written + [];
    } else {
      FullStep(rx, reply, p);
      var kept := Min(seg.size, |left|);
      var after := Step(rx, Keepalive(reply)).value;
      var msg := seg.lastMsg.value;
      assert Left(after) == left[kept..] by {
        assert kept < |left| ==> msg.data[seg.start + 2 * seg.size - msg.start..] == left[kept..];
      }
      assert left == left[..kept] + left[kept..];
      assert Concat(rx.uploaded) + seg.written + left[..kept] + left[kept..] == Concat(rx.uploaded) + seg.written + left;
    }
  }

  /**
   * When every message comes in time, counted in positions: `end` is where the current segment ends, a message must find
   * everything before `p` stored, and every message or keepalive that sees a full segment moves on by one segment.
   */
  predicate KeepsUp(msgs: seq<Message>, p: nat, end: nat, size: nat)
    decreases |msgs|
  {
    if msgs == [] then true
    else
      var q := if msgs[0].XLogData? then p + |msgs[0].data| else p;
      (msgs[0].XLogData? ==> p <= end) && KeepsUp(msgs[1..], q, if q >= end then end + size else end, size)
  }

  /** A run of contiguous messages succeeds exactly when it keeps up, and then nothing is lost and nothing is doubled. */
  lemma {:induction false} RunExactly(rx: Receiver, msgs: seq<Message>, p: nat)
    requires Receiving(rx, p) && Contiguous(msgs, p)
    ensures Run(rx, msgs).Some? <==> KeepsUp(msgs, p, rx.segment.start + rx.segment.size, rx.segment.size)
    ensures Run(rx, msgs).Some? ==>
      var after := Run(rx, msgs).value;
      && Receiving(after, p + |Payload(msgs)|) && after.segment.size == rx.segment.size
      && Assembled(after) + Left(after) == Assembled(rx) + Left(rx) + Payload(msgs)
    decreases |msgs|
  {
    hide Step, Assembled, Aligned, Left, Receiving;
    var left := Left(rx);
    ReceivingFits(rx, p);
    LeftOverExactly(rx, p);
    if msgs == [] {
      assert Assembled(rx) + left + [] == Assembled(rx) + left;
    } else if msgs[0].XLogData? && left != [] {
      LeftOverRefuses(rx, msgs[0].data, p);
    } else {
      var data := if msgs[0].XLogData? then msgs[0].data else [];
      MessageIsReceived(rx, msgs[0], data, p);
      StepFits(rx, msgs[0]);
      RunExactly(Step(rx, msgs[0]).value, msgs[1..], p + |data|);
      assert Assembled(rx) + left + data + Payload(msgs[1..]) == Assembled(rx) + left + (data + Payload(msgs[1..]));
    }
  }

  lemma MessageIsReceived(rx: Receiver, msg: Message, data: Bytes, p: nat)
    requires Receiving(rx, p)
    requires (msg.Keepalive? && data == []) || (msg == XLogData(p, data) && Left(rx) == [])
    ensures Step(rx, msg).Some?
    ensures var after := Step(rx, msg).value;
      && Receiving(after, p + |data|) && after.segment.size == rx.segment.size
      && Assembled(after) + Left(after) == Assembled(rx) + Left(rx) + data
      && after.segment.start == rx.segment.start
                                + if p + |data| >= rx.segment.start + rx.segment.size then rx.segment.size else 0
  {
    hide Step, Assembled, Aligned, Left;
    if msg.Keepalive? {
      KeepaliveMakesRoom(rx, msg.replyRequested, p);
      assert Assembled(rx) + Left(rx) + [] == Assembled(rx) + Left(rx);
    } else {
      DataIsReceived(rx, data, p);
    }
  }

  // ---- keepalives that are needed -------------------------------------------

  /** Where the segment ends after `k` keepalives. */
  function EndAfter(p: nat, end: nat, k: nat, size: nat): nat
    decreases k
  {
    if k == 0 then end else EndAfter(p, if p >= end then end + size else end, k - 1, size)
  }

  predicate Keepalives(msgs: seq<Message>) {
    forall i :: 0 <= i < |msgs| ==> msgs[i].Keepalive?
  }

  /**
   * Between two messages: with the segment ending at `end` and everything before `p` received, the next message comes in
   * time exactly when each keepalive before it had to make up for one segment at most.
   */
  lemma {:induction false} EnoughKeepalives(alive: seq<Message>, next: Message, rest: seq<Message>, p: nat, end: nat, size: nat)
    requires Keepalives(alive) && next.XLogData?
    ensures KeepsUp(alive + [next] + rest, p, end, size) <==>
      p <= end + |alive| * size && KeepsUp([next] + rest, p, EndAfter(p, end, |alive|, size), size)
    decreases |alive|
  {
    if alive == [] {
      assert alive + [next] + rest == [next] + rest;
    } else {
      var after := if p >= end then end + size else end;
      assert (alive + [next] + rest)[1..] == alive[1..] + [next] + rest;
      assert (alive + [next] + rest)[0] == alive[0];
      EnoughKeepalives(alive[1..], next, rest, p, after, size);
      assert |alive| * size == |alive[1..]| * size + size;
      if p < end {
        EndStays(p, end, |alive[1..]|, size);
      }
    }
  }

  lemma {:induction false} EndStays(p: nat, end: nat, k: nat, size: nat)
    ensures EndAfter(p, end, k, size) >= end
    ensures p < end ==> EndAfter(p, end, k, size) == end
    decreases k
  {
    if k > 0 {
      EndStays(p, if p >= end then end + size else end, k - 1, size);
    }
  }

  /** Trailing keepalives are always fine. */
  lemma {:induction false} TrailingKeepalives(alive: seq<Message>, p: nat, end: nat, size: nat)
    requires Keepalives(alive)
    ensures KeepsUp(alive, p, end, size)
    decreases |alive|
  {
    if alive != [] {
      TrailingKeepalives(alive[1..], p, if p >= end then end + size else end, size);
    }
  }

  /** A message that runs past the next segment leaves the receiver unable to accept its continuation right away. */
  lemma TooLongIsRefused(rx: Receiver, data: Bytes, more: Bytes, p: nat)
    requires Waiting(rx, p) && |rx.segment.written| + |data| > 2 * rx.segment.size
    ensures Step(rx, XLogData(p, data)).Some?
    ensures var after := Step(rx, XLogData(p, data)).value;
      |after.segment.written| <= after.segment.size && Step(after, XLogData(p + |data|, more)).None?
  {
    hide Aligned, Next;
    LongStep(rx, data, p);
  }

  /** Messages no longer than a segment always keep up. */
  lemma {:induction false} ShortMessagesKeepUp(msgs: seq<Message>, p: nat, end: nat, size: nat)
    requires AtMost(msgs, size) && p <= end
    ensures KeepsUp(msgs, p, end, size)
    decreases |msgs|
  {
    if msgs != [] {
      var q := if msgs[0].XLogData? then p + |msgs[0].data| else p;
      ShortMessagesKeepUp(msgs[1..], q, if q >= end then end + size else end, size);
    }
  }

  /**
   * For contiguous messages from a segment start on: the receiver goes through exactly when they keep up, and then the
   * uploaded segments, what is written of the current one and what is left over are the WAL bytes received.
   */
  lemma StreamExactly(location: nat, size: nat, msgs: seq<Message>)
    requires size > 0 && Contiguous(msgs, New(location, size).start)
    ensures Run(Begin(location, size), msgs).Some? <==>
      KeepsUp(msgs, New(location, size).start, New(location, size).start + size, size)
    ensures Run(Begin(location, size), msgs).Some? ==>
      var rx := Run(Begin(location, size), msgs).value;
      && Concat(rx.uploaded) + rx.segment.written + Left(rx) == Payload(msgs)
      && (forall i :: 0 <= i < |rx.uploaded| ==> |rx.uploaded[i]| == size)
      && |rx.segment.written| <= size
  {
    hide Run, Contiguous, Payload, Aligned, New, KeepsUp;
    var rx := Begin(location, size);
    RoundedDown(location, size);
    RunExactly(rx, msgs, rx.segment.start);
    assert [] + [] + [] + Payload(msgs) == Payload(msgs);
  }

  /** With messages no longer than a segment the receiver goes through and is never left with something over. */
  lemma StreamIsAssembled(location: nat, size: nat, msgs: seq<Message>)
    requires size > 0 && Contiguous(msgs, New(location, size).start) && AtMost(msgs, size)
    ensures Run(Begin(location, size), msgs).Some?
    ensures var rx := Run(Begin(location, size), msgs).value;
      && Concat(rx.uploaded) + rx.segment.written == Payload(msgs)
      && (forall i :: 0 <= i < |rx.uploaded| ==> |rx.uploaded[i]| == size)
      && |rx.segment.written| <= size
  {
    hide Run, Contiguous, AtMost, Payload, Aligned, New, KeepsUp, Step, Receiving;
    var start := New(location, size).start;
    ShortMessagesKeepUp(msgs, start, start + size, size);
    StreamExactly(location, size, msgs);
    RoundedDown(location, size);
    NeverLeftOver(Begin(location, size), msgs, start);
    var rx := Run(Begin(location, size), msgs).value;
    assert Concat(rx.uploaded) + rx.segment.written + [] == Concat(rx.uploaded) + rx.segment.written;
  }

  lemma {:induction false} NeverLeftOver(rx: Receiver, msgs: seq<Message>, p: nat)
    requires Receiving(rx, p) && Left(rx) == [] && Contiguous(msgs, p) && AtMost(msgs, rx.segment.size)
    requires Run(rx, msgs).Some?
    ensures Left(Run(rx, msgs).value) == []
    decreases |msgs|
  {
    hide Step, Assembled, Aligned, Left;
    if msgs != [] {
      var data := if msgs[0].XLogData? then msgs[0].data else [];
      MessageIsReceived(rx, msgs[0], data, p);
      StepFits(rx, msgs[0]);
      LeftOverExactly(rx, p);
      LeftOverExactly(Step(rx, msgs[0]).value, p + |data|);
      NeverLeftOver(Step(rx, msgs[0]).value, msgs[1..], p + |data|);
    }
  }

  // ---- what the server is told ----------------------------------------------

  /** A position is reported exactly when a segment is begun or the server requests a reply. */
  lemma StepReports(rx: Receiver, msg: Message)
    requires 0 < rx.segment.size && |rx.segment.written| <= rx.segment.size && Step(rx, msg).Some?
    ensures var after := Step(rx, msg).value;
      after.reports == rx.reports
                       + if |after.uploaded| > |rx.uploaded| || msg == Keepalive(true) then [after.segment.start] else []
  {
    hide New, Next;
  }

  /** Uploaded segments are full, the current one starts where they end, and nothing behind that was reported. */
  predicate Honest(rx: Receiver, base: nat) {
    && 0 < rx.segment.size && |rx.segment.written| <= rx.segment.size && Aligned(rx.segment.start, rx.segment.size)
    && rx.segment.start == base + |Concat(rx.uploaded)|
    && forall i :: 0 <= i < |rx.reports| ==> rx.reports[i] <= rx.segment.start
  }

  lemma StepIsHonest(rx: Receiver, msg: Message, base: nat)
    requires Honest(rx, base) && Step(rx, msg).Some?
    ensures Honest(Step(rx, msg).value, base)
  {
    hide Concat, Aligned, New;
    var seg := Process(rx.segment, msg).1;
    StepFits(rx, msg);
    if seg.IsComplete() {
      NextStart(seg.start, seg.size);
      Boundary(seg.start, seg.size);
      UploadAppends(rx, seg.written);
    }
  }

  /** In every run, whatever the messages, no position is reported that is not uploaded yet. */
  lemma {:induction false} ReportsAreUploaded(rx: Receiver, msgs: seq<Message>, base: nat)
    requires Honest(rx, base) && Run(rx, msgs).Some?
    ensures Honest(Run(rx, msgs).value, base)
    decreases |msgs|
  {
    hide Honest, Step;
    if msgs != [] {
      HonestFits(rx, base);
      StepIsHonest(rx, msgs[0], base);
      StepFits(rx, msgs[0]);
      ReportsAreUploaded(Step(rx, msgs[0]).value, msgs[1..], base);
    }
  }

  lemma HonestFits(rx: Receiver, base: nat)
    requires Honest(rx, base)
    ensures 0 < rx.segment.size && |rx.segment.written| <= rx.segment.size
  {
  }

  lemma BeginIsHonest(location: nat, size: nat)
    requires size > 0
    ensures Honest(Begin(location, size), New(location, size).start)
  {
    WholeQuotient(location / size, size);
  }

  lemma RoundedDown(location: nat, size: nat)
    requires size > 0
    ensures Receiving(Begin(location, size), New(location, size).start)
    ensures Left(Begin(location, size)) == []
    ensures New(location, size).size == size && New(location, size).written == []
    ensures New(location, size).start <= location < New(location, size).start + size
  {
    WholeQuotient(location / size, size);
  }
}
