/** The files that carry recording state between processes: delta files and part files. */
module RecordingFiles {
  import opened Bytes
  import opened XLogRecords
  import opened WalPages
  import opened WalLayout
  import opened WalParts

  // ---- block locations ------------------------------------------------------

  const TERMINAL: BlockLocation := BlockLocation(RelFileNode(0, 0, 0), 0)

  function EncodeLocation(l: BlockLocation): (b: Bytes)
    ensures |b| == 16
  {
    Encode(l.relation.spcNode, 4) + Encode(l.relation.dbNode, 4) + Encode(l.relation.relNode, 4) + Encode(l.blockNo, 4)
  }

  function DecodeLocation(b: Bytes): BlockLocation
    requires |b| == 16
  {
    BlockLocation(RelFileNode(Decode(b[0..4]), Decode(b[4..8]), Decode(b[8..12])), Decode(b[12..16]))
  }

  function EncodeLocations(ls: seq<BlockLocation>): Bytes {
    if ls == [] then [] else EncodeLocation(ls[0]) + EncodeLocations(ls[1..])
  }

  method WriteLocationsTo(ls: seq<BlockLocation>) returns (b: Bytes)
    ensures b == EncodeLocations(ls)
  {
    b := [];
    for i := 0 to |ls|
      invariant b + EncodeLocations(ls[i..]) == EncodeLocations(ls)
    {
      assert ls[i..][1..] == ls[i + 1..];
      b := b + EncodeLocation(ls[i]);
    }
    assert b + [] == b;
  }

  /**
   * Locations up to the terminal one, and what follows it. The end of the data between two numbers
   * counts as the end of the list as well.
   */
  function ReadLocations(b: Bytes): Parsed<(seq<BlockLocation>, Bytes)> {
    if |b| < 16 then (if |b| % 4 == 0 then Good(([], [])) else Bad(Truncated))
    else if DecodeLocation(b[..16]) == TERMINAL then Good(([], b[16..]))
    else
      var (ls, rest) :- ReadLocations(b[16..]);
      Good(([DecodeLocation(b[..16])] + ls, rest))
  }

  method ReadLocationsFrom(b: Bytes) returns (r: Parsed<(seq<BlockLocation>, Bytes)>)
    ensures r == ReadLocations(b)
  {
    hide DecodeLocation;
    var rest, locations := b, [];
    PrependedNothing(ReadLocations(b));
    while 16 <= |rest| && DecodeLocation(rest[..16]) != TERMINAL
      invariant ReadLocations(b) == Prepended(locations, ReadLocations(rest))
      decreases |rest|
    {
      PrependedTwice(locations, DecodeLocation(rest[..16]), ReadLocations(rest[16..]));
      locations := locations + [DecodeLocation(rest[..16])];
      rest := rest[16..];
    }
    assert locations + [] == locations;
    if |rest| < 16 {
      return if |rest| % 4 == 0 then Good((locations, [])) else Bad(Truncated);
    }
    return Good((locations, rest[16..]));
  }

  function Prepended(ls: seq<BlockLocation>, r: Parsed<(seq<BlockLocation>, Bytes)>): Parsed<(seq<BlockLocation>, Bytes)> {
    match r
    case Bad(e) => Bad(e)
    case Good((more, rest)) => Good((ls + more, rest))
  }

  lemma PrependedNothing(r: Parsed<(seq<BlockLocation>, Bytes)>)
    ensures Prepended([], r) == r
  {
    if r.Good? {
      assert [] + r.value.0 == r.value.0;
    }
  }

  lemma PrependedTwice(ls: seq<BlockLocation>, l: BlockLocation, r: Parsed<(seq<BlockLocation>, Bytes)>)
    ensures Prepended(ls, Prepended([l], r)) == Prepended(ls + [l], r)
  {
    if r.Good? {
      assert ls + ([l] + r.value.0) == ls + [l] + r.value.0;
    }
  }

  lemma FourNumbers(a: Bytes, b: Bytes, c: Bytes, d: Bytes)
    requires |a| == |b| == |c| == |d| == 4
    ensures var e := a + b + c + d; e[0..4] == a && e[4..8] == b && e[8..12] == c && e[12..16] == d
  {
  }

  /** Tablespace, database, relation and block, four bytes each. */
  lemma LocationLayout(l: BlockLocation)
    ensures var b := EncodeLocation(l);
      && b[0..4] == Encode(l.relation.spcNode, 4) && b[4..8] == Encode(l.relation.dbNode, 4)
      && b[8..12] == Encode(l.relation.relNode, 4) && b[12..16] == Encode(l.blockNo, 4)
  {
    hide Encode;
    FourNumbers(Encode(l.relation.spcNode, 4), Encode(l.relation.dbNode, 4), Encode(l.relation.relNode, 4),
                Encode(l.blockNo, 4));
  }

  lemma DecodeEncodeLocation(l: BlockLocation)
    requires ValidLocation(l)
    ensures DecodeLocation(EncodeLocation(l)) == l
  {
    hide Encode, Decode;
    FourNumbers(Encode(l.relation.spcNode, 4), Encode(l.relation.dbNode, 4), Encode(l.relation.relNode, 4),
                Encode(l.blockNo, 4));
    DecodeEncode4(l.relation.spcNode);
    DecodeEncode4(l.relation.dbNode);
    DecodeEncode4(l.relation.relNode);
    DecodeEncode4(l.blockNo);
  }

  /** The locations before the first terminal one. */
  function Before(ls: seq<BlockLocation>): seq<BlockLocation> {
    if ls == [] || ls[0] == TERMINAL then [] else [ls[0]] + Before(ls[1..])
  }

  function AfterTerminal(ls: seq<BlockLocation>): seq<BlockLocation> {
    if ls == [] then [] else if ls[0] == TERMINAL then ls[1..] else AfterTerminal(ls[1..])
  }

  lemma {:induction false} ReadTerminated(ls: seq<BlockLocation>, rest: Bytes)
    requires (forall k :: 0 <= k < |ls| ==> ValidLocation(ls[k])) && TERMINAL in ls
    ensures ReadLocations(EncodeLocations(ls) + rest) == Good((Before(ls), EncodeLocations(AfterTerminal(ls)) + rest))
    decreases |ls|
  {
    hide EncodeLocation, DecodeLocation;
    var b := EncodeLocations(ls) + rest;
    var tail := EncodeLocations(ls[1..]) + rest;
    DecodeEncodeLocation(ls[0]);
    assert b[..16] == EncodeLocation(ls[0]) && b[16..] == tail;
    if ls[0] != TERMINAL {
      ReadTerminated(ls[1..], rest);
    }
  }

  lemma {:induction false} BeforeAppended(ls: seq<BlockLocation>)
    ensures Before(ls + [TERMINAL]) == Before(ls)
    ensures Before(ls) == ls <==> TERMINAL !in ls
    ensures TERMINAL !in ls ==> AfterTerminal(ls + [TERMINAL]) == []
    ensures |Before(ls)| <= |ls|
  {
    if ls != [] {
      BeforeAppended(ls[1..]);
      assert (ls + [TERMINAL])[1..] == ls[1..] + [TERMINAL];
      assert ls == [ls[0]] + ls[1..];
    }
  }

  /** A list cut short: between two numbers it ends there, inside one it does not load. */
  lemma {:induction false} ReadCut(ls: seq<BlockLocation>, next: BlockLocation, m: nat)
    requires (forall k :: 0 <= k < |ls| ==> ValidLocation(ls[k])) && TERMINAL !in ls && m < 16
    ensures ReadLocations(EncodeLocations(ls) + EncodeLocation(next)[..m])
         == if m % 4 == 0 then Good((ls, [])) else Bad(Truncated)
    decreases |ls|
  {
    hide EncodeLocation, DecodeLocation;
    var cut := EncodeLocation(next)[..m];
    var b := EncodeLocations(ls) + cut;
    if ls == [] {
      assert b == cut;
    } else {
      DecodeEncodeLocation(ls[0]);
      assert b[..16] == EncodeLocation(ls[0]) && b[16..] == EncodeLocations(ls[1..]) + cut;
      ReadCut(ls[1..], next, m);
      assert [ls[0]] + ls[1..] == ls;
    }
  }

  // ---- delta files ----------------------------------------------------------

  datatype DeltaFile = DeltaFile(locations: seq<BlockLocation>, parser: ParserState)

  predicate ValidDelta(d: DeltaFile) {
    |d.parser.data| < UINT32 && forall k :: 0 <= k < |d.locations| ==> ValidLocation(d.locations[k])
  }

  /** WalParser.Save refuses data without its beginning. */
  predicate Savable(d: DeltaFile) {
    d.parser.data != [] ==> d.parser.hasBeginning
  }

  function SavedDelta(d: DeltaFile): Bytes
    requires Savable(d)
  {
    EncodeLocations(d.locations + [TERMINAL]) + Encode(|d.parser.data|, 4) + d.parser.data
  }

  /** LoadWalParser: the beginning flag is whether there is data. */
  function LoadParser(b: Bytes): Parsed<ParserState> {
    if |b| < 4 then Bad(Truncated)
    else
      var n := Decode(b[..4]);
      if |b| < 4 + n then Bad(Truncated) else Good(Holding(b[4..4 + n]))
  }

  function LoadDelta(b: Bytes): Parsed<DeltaFile> {
    var (locations, rest) :- ReadLocations(b);
    var parser :- LoadParser(rest);
    Good(DeltaFile(locations, parser))
  }

  lemma LoadPrefixed(length: Bytes, data: Bytes)
    requires |length| == 4 && Decode(length) == |data|
    ensures LoadParser(length + data) == Good(Holding(data))
  {
    hide Decode;
    var b := length + data;
    assert b[..4] == length && b[4..4 + |data|] == data;
  }

  lemma LoadSavedParser(data: Bytes)
    requires |data| < UINT32
    ensures LoadParser(Encode(|data|, 4) + data) == Good(Holding(data))
  {
    hide Encode, Decode, LoadParser;
    DecodeEncode4(|data|);
    LoadPrefixed(Encode(|data|, 4), data);
  }

  /**
   * Loading a saved delta file gives back its locations and its parser, the flag normalised, exactly when
   * no location is the terminal one.
   */
  lemma DeltaRoundTrip(d: DeltaFile)
    requires ValidDelta(d) && Savable(d)
    ensures LoadDelta(SavedDelta(d)) == Good(DeltaFile(d.locations, Holding(d.parser.data))) <==> TERMINAL !in d.locations
  {
    hide LoadParser, EncodeLocation, ValidLocation;
    var ls, rest := d.locations + [TERMINAL], Encode(|d.parser.data|, 4) + d.parser.data;
    assert ValidLocation(TERMINAL) by {
      TerminalValid();
    }
    assert SavedDelta(d) == EncodeLocations(ls) + rest;
    ReadTerminated(ls, rest);
    BeforeAppended(d.locations);
    LoadSavedParser(d.parser.data);
    if TERMINAL !in d.locations {
      assert EncodeLocations([]) + rest == rest;
    }
  }

  /** Both sides occur: a delta that comes back as it was, and one that loses a location. */
  lemma DeltaFilesBothWays(first: BlockLocation, head: Bytes)
    requires ValidLocation(first) && first != TERMINAL && 0 < |head| < UINT32
    ensures LoadDelta(SavedDelta(DeltaFile([first], Holding(head)))) == Good(DeltaFile([first], Holding(head)))
    ensures LoadDelta(SavedDelta(DeltaFile([TERMINAL, first], FRESH))) != Good(DeltaFile([TERMINAL, first], FRESH))
  {
    hide LoadDelta, SavedDelta, ValidLocation;
    TerminalValid();
    DeltaRoundTrip(DeltaFile([first], Holding(head)));
    DeltaRoundTrip(DeltaFile([TERMINAL, first], FRESH));
  }

  lemma TerminalValid()
    ensures ValidLocation(TERMINAL)
  {
  }

  /**
   * Why the flag has to be normalised: a parser made from an empty head claims a beginning it does not have, and
   * fails on the first page that starts with a new record; saved and loaded it is a fresh parser.
   */
  lemma EmptyHeadFails(page: Bytes)
    requires StartPage(page).Good? && StartPage(page).value.remaining == 0
    ensures ParseStep(ParserState([], true), page).1 == Bad(Truncated)
    ensures LoadParser(Encode(0, 4) + []) == Good(FRESH)
  {
    hide ReadRecords, StartPage;
    NoTail(page);
    LoadSavedParser([]);
  }

  /**
   * On every page of the log after what the parser knows: the flag that a parser made from a head always sets does no
   * harm exactly when the head is not empty.
   */
  lemma HeadFlagExactly(head: Bytes, page: Bytes, s: Stream)
    requires Laid(page, s) && ValidStream(s) && Knowing(Holding(head), s)
    ensures ParseStep(ParserState(head, true), page) == ParseStep(Holding(head), page) <==> head != []
  {
    hide Laid, ValidStream, StartPage, ParseStep, Completed, TailOut, NextState;
    if head == [] {
      StartLaid(page, s);
      EmptyHeadFails(page);
      StepLaid(FRESH, page, s);
    }
  }

  lemma NoTail(page: Bytes)
    requires StartPage(page).Good? && StartPage(page).value.remaining == 0
    ensures StartPage(page).value.tail == []
  {
    hide ReadPageHeader;
  }

  // ---- part files -----------------------------------------------------------

  datatype Kind = PreviousHead | Tail | Head | Unknown

  /** One saved part: which slot, and its data. */
  datatype Part = Part(kind: Kind, id: nat, data: Bytes)

  function KindByte(k: Kind): Byte {
    match k
    case PreviousHead => 0
    case Tail => 1
    case Head => 2
    case Unknown => 3
  }

  function KindOf(b: Byte): Kind {
    match b
    case 0 => PreviousHead
    case 1 => Tail
    case 2 => Head
    case _ => Unknown
  }

  predicate ValidPart(p: Part) {
    p.kind != Unknown && p.id < SEGMENTS && |p.data| < UINT32
  }

  function EncodePart(p: Part): Bytes
    requires ValidPart(p)
  {
    [KindByte(p.kind), p.id] + Encode(|p.data|, 4) + p.data
  }

  /** Kind (0 for a previous head, 1 for a tail, 2 for a head), slot, length in four bytes, data. */
  lemma PartLayout(p: Part)
    requires ValidPart(p)
    ensures var b := EncodePart(p);
      && b[0] == (if p.kind == PreviousHead then 0 else if p.kind == Tail then 1 else 2) && b[1] == p.id
      && b[2..6] == Encode(|p.data|, 4) && b[6..] == p.data
  {
    hide Encode;
  }

  function EncodeParts(ps: seq<Part>): Bytes
    requires forall k :: 0 <= k < |ps| ==> ValidPart(ps[k])
  {
    if ps == [] then [] else EncodePart(ps[0]) + EncodeParts(ps[1..])
  }

  /** setPart, which ignores kinds it does not know. */
  function SetPart(file: PartFile, p: Part): PartFile {
    match p.kind
    case PreviousHead => file.(previousHead := Some(p.data))
    case Tail => file.(tails := file.tails[p.id := p.data])
    case Head => file.(heads := file.heads[p.id := p.data])
    case Unknown => file
  }

  function SetParts(file: PartFile, ps: seq<Part>): PartFile
    decreases |ps|
  {
    if ps == [] then file else SetParts(SetPart(file, ps[0]), ps[1..])
  }

  /** The parts present among the first `n` slots of a table. */
  function PresentParts(kind: Kind, slots: map<nat, Bytes>, n: nat): seq<Part> {
    if n == 0 then []
    else PresentParts(kind, slots, n - 1) + if n - 1 in slots then [Part(kind, n - 1, slots[n - 1])] else []
  }

  /** The parts in the order WalPartFile.Save writes them. */
  function PartsOf(file: PartFile): seq<Part> {
    PresentParts(Tail, file.tails, SEGMENTS)
    + (if file.previousHead.Some? then [Part(PreviousHead, 0, file.previousHead.value)] else [])
    + PresentParts(Head, file.heads, SEGMENTS)
  }

  predicate ValidFile(file: PartFile) {
    && (forall i :: i in file.tails ==> i < SEGMENTS && |file.tails[i]| < UINT32)
    && (forall i :: i in file.heads ==> i < SEGMENTS && |file.heads[i]| < UINT32)
    && (file.previousHead.Some? ==> |file.previousHead.value| < UINT32)
  }

  predicate AllValid(ps: seq<Part>) {
    forall k :: 0 <= k < |ps| ==> ValidPart(ps[k])
  }

  /**
   * One part and what follows; None at an end of data that the source takes for the end of the file. A slot
   * beyond the table is an index out of range in the source.
   */
  function LoadPart(b: Bytes): (r: Parsed<Option<(Part, Bytes)>>)
    ensures r.Good? && r.value.Some? ==> |r.value.value.1| < |b|
  {
    if |b| <= 2 then Good(None)
    else if |b| < 6 then Bad(Truncated)
    else
      var n := Decode(b[2..6]);
      if |b| < 6 + n then (if |b| == 6 then Good(None) else Bad(Truncated))
      else if b[0] in {1, 2} && b[1] >= SEGMENTS then Bad(BadSlot)
      else Good(Some((Part(KindOf(b[0]), b[1], b[6..6 + n]), b[6 + n..])))
  }

  /** A part with any kind and slot: a tail or head beyond the table is refused, anything else loads. */
  lemma AnyPartLoads(kind: Byte, id: Byte, data: Bytes, rest: Bytes)
    requires |data| < UINT32
    ensures LoadPart([kind, id] + Encode(|data|, 4) + data + rest)
         == if 1 <= kind <= 2 && id >= 16 then Bad(BadSlot) else Good(Some((Part(KindOf(kind), id, data), rest)))
  {
    hide Encode, Decode, KindOf;
    DecodeEncode4(|data|);
    PartPieces([kind, id], Encode(|data|, 4), data, rest);
  }

  lemma PartPieces(slot: Bytes, length: Bytes, data: Bytes, rest: Bytes)
    requires |slot| == 2 && |length| == 4
    ensures var b := slot + length + data + rest;
      && b[0] == slot[0] && b[1] == slot[1] && b[2..6] == length && b[6..6 + |data|] == data && b[6 + |data|..] == rest
  {
    var b := slot + length + data + rest;
    assert b[..2] == slot && b[2..6] == length;
    assert b[6..] == data + rest;
    assert b[6..6 + |data|] == b[6..][..|data|] && b[6 + |data|..] == b[6..][|data|..];
  }

  /** A part cut short: where the source finds nothing left to read it takes the file for ended, else it does not load. */
  lemma LoadCutPart(p: Part, m: nat)
    requires ValidPart(p) && m < |EncodePart(p)|
    ensures LoadPart(EncodePart(p)[..m]) == if m in {0, 1, 2, 6} then Good(None) else Bad(Truncated)
  {
    hide Encode, Decode;
    var b := EncodePart(p)[..m];
    if m >= 6 {
      DecodeEncode4(|p.data|);
      assert b[2..6] == Encode(|p.data|, 4);
    }
  }

  function LoadParts(b: Bytes, file: PartFile): Parsed<PartFile>
    decreases |b|
  {
    var next :- LoadPart(b);
    match next
    case None => Good(file)
    case Some((p, rest)) => LoadParts(rest, SetPart(file, p))
  }

  method LoadPartFile(b: Bytes) returns (r: Parsed<PartFile>)
    ensures r == LoadParts(b, PartFile(map[], None, map[]))
  {
    var file, rest := PartFile(map[], None, map[]), b;
    while true
      invariant LoadParts(rest, file) == LoadParts(b, PartFile(map[], None, map[]))
      decreases |rest|
    {
      var next := LoadPart(rest);
      if next.Bad? {
        return Bad(next.error);
      }
      if next.value.None? {
        return Good(file);
      }
      file, rest := SetPart(file, next.value.value.0), next.value.value.1;
    }
  }

  lemma LoadEncodedPart(p: Part, rest: Bytes)
    requires ValidPart(p)
    ensures LoadPart(EncodePart(p) + rest) == Good(Some((p, rest)))
  {
    var b, n := EncodePart(p) + rest, |p.data|;
    assert b[0] == KindByte(p.kind) && b[1] == p.id;
    assert b[2..6] == Encode(n, 4);
    assert b[6..6 + n] == p.data && b[6 + n..] == rest;
    DecodeEncode4(n);
  }

  lemma {:induction false} LoadEncodedParts(ps: seq<Part>, file: PartFile)
    requires AllValid(ps)
    ensures LoadParts(EncodeParts(ps), file) == Good(SetParts(file, ps))
    decreases |ps|
  {
    hide EncodePart, LoadPart, SetPart;
    if ps == [] {
      NothingToLoad();
    } else {
      LoadEncodedPart(ps[0], EncodeParts(ps[1..]));
      LoadEncodedParts(ps[1..], SetPart(file, ps[0]));
    }
  }

  lemma NothingToLoad()
    ensures LoadPart([]) == Good(None)
  {
  }

  lemma {:induction false} SetPartsAppend(file: PartFile, a: seq<Part>, b: seq<Part>)
    ensures SetParts(file, a + b) == SetParts(SetParts(file, a), b)
    decreases |a|
  {
    if a == [] {
      assert a + b == b;
    } else {
      assert (a + b)[1..] == a[1..] + b;
      SetPartsAppend(SetPart(file, a[0]), a[1..], b);
    }
  }

  function Upto(slots: map<nat, Bytes>, n: nat): map<nat, Bytes> {
    map i | i in slots && i < n :: slots[i]
  }

  lemma {:induction false} SetPresent(file: PartFile, kind: Kind, slots: map<nat, Bytes>, n: nat)
    requires kind == Tail ==> file.tails == map[]
    requires kind == Head ==> file.heads == map[]
    requires kind in {Tail, Head}
    ensures SetParts(file, PresentParts(kind, slots, n))
         == if kind == Tail then file.(tails := Upto(slots, n)) else file.(heads := Upto(slots, n))
  {
    if n == 0 {
      assert Upto(slots, 0) == map[];
    } else {
      SetPresent(file, kind, slots, n - 1);
      if n - 1 in slots {
        var one := [Part(kind, n - 1, slots[n - 1])];
        SetPartsAppend(file, PresentParts(kind, slots, n - 1), one);
        assert one[1..] == [];
        assert Upto(slots, n) == Upto(slots, n - 1)[n - 1 := slots[n - 1]];
      } else {
        assert Upto(slots, n) == Upto(slots, n - 1);
        assert PresentParts(kind, slots, n) == PresentParts(kind, slots, n - 1);
      }
    }
  }

  lemma {:induction false} PresentValid(kind: Kind, slots: map<nat, Bytes>, n: nat)
    requires kind != Unknown && n <= SEGMENTS && forall i :: i in slots ==> |slots[i]| < UINT32
    ensures AllValid(PresentParts(kind, slots, n))
  {
    if n > 0 {
      PresentValid(kind, slots, n - 1);
    }
  }

  /** WalPartFile.Save: the parts are listed first and then written one after another. */
  method SavePartFile(file: PartFile) returns (b: Bytes)
    requires ValidFile(file)
    ensures AllValid(PartsOf(file)) && b == EncodeParts(PartsOf(file))
  {
    hide EncodePart;
    var tails, heads := [], [];
    for id := 0 to SEGMENTS
      invariant tails == PresentParts(Tail, file.tails, id) && heads == PresentParts(Head, file.heads, id)
    {
      if id in file.tails {
        tails := tails + [Part(Tail, id, file.tails[id])];
      }
      if id in file.heads {
        heads := heads + [Part(Head, id, file.heads[id])];
      }
    }
    PresentValid(Tail, file.tails, SEGMENTS);
    PresentValid(Head, file.heads, SEGMENTS);
    var previous := if file.previousHead.Some? then [Part(PreviousHead, 0, file.previousHead.value)] else [];
    b := SaveParts(tails + previous + heads);
  }

  method SaveParts(ps: seq<Part>) returns (b: Bytes)
    requires AllValid(ps)
    ensures b == EncodeParts(ps)
  {
    hide EncodePart;
    b := [];
    for i := 0 to |ps|
      invariant b + EncodeParts(ps[i..]) == EncodeParts(ps)
    {
      assert ps[i..][1..] == ps[i + 1..];
      b := b + EncodePart(ps[i]);
    }
    assert b + [] == b;
  }

  /** Loading a saved part file gives the same slots: absent stays absent, empty stays empty, so completeness survives. */
  lemma PartFileRoundTrip(file: PartFile)
    requires ValidFile(file)
    ensures AllValid(PartsOf(file))
    ensures LoadParts(EncodeParts(PartsOf(file)), PartFile(map[], None, map[])) == Good(file)
  {
    hide EncodeParts, LoadParts, PresentParts;
    var empty := PartFile(map[], None, map[]);
    var tails, heads := PresentParts(Tail, file.tails, SEGMENTS), PresentParts(Head, file.heads, SEGMENTS);
    var previous := if file.previousHead.Some? then [Part(PreviousHead, 0, file.previousHead.value)] else [];
    PresentValid(Tail, file.tails, SEGMENTS);
    PresentValid(Head, file.heads, SEGMENTS);
    LoadEncodedParts(PartsOf(file), empty);
    SetPresent(empty, Tail, file.tails, SEGMENTS);
    assert Upto(file.tails, SEGMENTS) == file.tails && Upto(file.heads, SEGMENTS) == file.heads;
    var afterTails := empty.(tails := file.tails);
    SetPartsAppend(empty, tails, previous);
    var afterPrevious := afterTails.(previousHead := file.previousHead);
    assert SetParts(afterTails, previous) == afterPrevious by {
      assert file.previousHead.Some? ==> previous[1..] == [];
    }
    SetPartsAppend(empty, tails + previous, heads);
    SetPresent(afterPrevious, Head, file.heads, SEGMENTS);
  }
}
