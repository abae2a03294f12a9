/** Names of WAL files: timeline, high and low part of the segment number in hexadecimal. */
module WalNames {
  import opened Bytes

  // ---- hexadecimal ----------------------------------------------------------

  const DIGITS: string := "0123456789ABCDEF"

  function Digit(n: nat): char
    requires n < 16
  {
    DIGITS[n]
  }

  /** The value of a digit, upper or lower case. */
  function Value(c: char): (v: Option<nat>)
    ensures v.Some? ==> v.value < 16
  {
    if '0' <= c <= '9' then Some(c as nat - '0' as nat)
    else if 'A' <= c <= 'F' then Some(c as nat - 'A' as nat + 10)
    else if 'a' <= c <= 'f' then Some(c as nat - 'a' as nat + 10)
    else None
  }

  function Upper(c: char): char {
    if 'a' <= c <= 'f' then (c as nat - 'a' as nat + 'A' as nat) as char else c
  }

  function UpperAll(s: string): string {
    seq(|s|, i requires 0 <= i < |s| => Upper(s[i]))
  }

  function Pow16(width: nat): (p: nat)
    ensures p > 0
  {
    if width == 0 then 1 else 16 * Pow16(width - 1)
  }

  /** The verb %0wX: at least `width` digits, more when the number needs them. */
  function Format(n: nat, width: nat): string
    decreases n, width
  {
    if n == 0 && width == 0 then []
    else Format(n / 16, if width == 0 then 0 else width - 1) + [Digit(n % 16)]
  }

  /** ParseUint in base 16. */
  function Parse(s: string): Option<nat> {
    if s == [] then Some(0)
    else
      var high, low := Parse(s[..|s| - 1]), Value(s[|s| - 1]);
      if high.None? || low.None? then None else Some(16 * high.value + low.value)
  }

  lemma DigitValue(n: nat)
    requires n < 16
    ensures Value(Digit(n)) == Some(n) && Upper(Digit(n)) == Digit(n)
  {
  }

  /** Digits are those of the table and the six lower-case letters, which mean the same as the upper-case ones. */
  lemma DigitsExactly(c: char)
    ensures Value(c).Some? <==> c in "0123456789" || c in "ABCDEF" || c in "abcdef"
    ensures forall k :: 0 <= k < 6 ==> Value("abcdef"[k]) == Value("ABCDEF"[k]) == Some(10 + k)
  {
    if '0' <= c <= '9' {
      assert "0123456789"[c as nat - '0' as nat] == c;
    } else if 'A' <= c <= 'F' {
      assert "ABCDEF"[c as nat - 'A' as nat] == c;
    } else if 'a' <= c <= 'f' {
      assert "abcdef"[c as nat - 'a' as nat] == c;
    }
  }

  lemma ValueDigit(c: char)
    requires Value(c).Some?
    ensures Digit(Value(c).value) == Upper(c)
  {
  }

  lemma {:induction false} FormatWidth(n: nat, width: nat)
    ensures |Format(n, width)| >= width
    ensures |Format(n, width)| == width <==> n < Pow16(width)
    decreases n, width
  {
    if n != 0 || width != 0 {
      FormatWidth(n / 16, if width == 0 then 0 else width - 1);
    }
  }

  lemma ParseAppend(s: string, c: char)
    requires Parse(s).Some? && Value(c).Some?
    ensures Parse(s + [c]) == Some(16 * Parse(s).value + Value(c).value)
  {
    assert (s + [c])[..|s|] == s;
  }

  lemma FormatNothing()
    ensures Parse(Format(0, 0)) == Some(0)
  {
  }

  lemma FormatStep(n: nat, width: nat)
    requires n != 0 || width != 0
    ensures Format(n, width) == Format(n / 16, if width == 0 then 0 else width - 1) + [Digit(n % 16)]
  {
  }

  lemma {:induction false} ParseFormat(n: nat, width: nat)
    ensures Parse(Format(n, width)) == Some(n)
    decreases n, width
  {
    hide Digit, Value, Parse, Format;
    if n == 0 && width == 0 {
      FormatNothing();
    } else {
      var rest := if width == 0 then 0 else width - 1;
      ParseFormat(n / 16, rest);
      FormatStep(n, width);
      DigitValue(n % 16);
      ParseAppend(Format(n / 16, rest), Digit(n % 16));
    }
  }

  lemma {:induction false} FormatParse(s: string)
    requires Parse(s).Some?
    ensures Parse(s).value < Pow16(|s|) && Format(Parse(s).value, |s|) == UpperAll(s)
  {
    if s != [] {
      var front, c := s[..|s| - 1], s[|s| - 1];
      FormatParse(front);
      ValueDigit(c);
      var n := Parse(s).value;
      assert n / 16 == Parse(front).value && n % 16 == Value(c).value;
      assert UpperAll(s) == UpperAll(front) + [Upper(c)];
    }
  }

  // ---- order ----------------------------------------------------------------

  /** Comparison of strings. */
  predicate Less(a: string, b: string) {
    b != [] && (a == [] || a[0] < b[0] || (a[0] == b[0] && Less(a[1..], b[1..])))
  }

  lemma {:induction false} LessAppend(a: string, b: string, x: string, y: string)
    requires |a| == |b|
    ensures Less(a + x, b + y) <==> Less(a, b) || (a == b && Less(x, y))
  {
    if a == [] {
      assert a + x == x && b + y == y;
    } else {
      assert (a + x)[1..] == a[1..] + x && (b + y)[1..] == b[1..] + y;
      assert a == [a[0]] + a[1..] && b == [b[0]] + b[1..];
      LessAppend(a[1..], b[1..], x, y);
    }
  }

  lemma DigitOrder(m: nat, n: nat)
    requires m < 16 && n < 16
    ensures Less([Digit(m)], [Digit(n)]) <==> m < n
  {
  }

  /** Numbers of one width compare as their digits do. */
  lemma {:induction false} FormatOrder(m: nat, n: nat, width: nat)
    requires m < Pow16(width) && n < Pow16(width)
    ensures Less(Format(m, width), Format(n, width)) <==> m < n
    ensures Format(m, width) == Format(n, width) <==> m == n
    decreases width
  {
    if width > 0 {
      FormatOrder(m / 16, n / 16, width - 1);
      FormatWidth(m / 16, width - 1);
      FormatWidth(n / 16, width - 1);
      LessAppend(Format(m / 16, width - 1), Format(n / 16, width - 1), [Digit(m % 16)], [Digit(n % 16)]);
      DigitOrder(m % 16, n % 16);
      ParseFormat(m, width);
      ParseFormat(n, width);
    }
  }

  // ---- names ----------------------------------------------------------------

  datatype NameError = NotWalFilename | BadDigit | IncorrectLogSegNo

  datatype Parsed = Good(timeline: nat, segment: nat) | Bad(error: NameError)

  /** The two parts of a segment number. */
  function High(segment: nat, perLog: nat): nat
    requires perLog > 0
  {
    segment / perLog
  }

  function Low(segment: nat, perLog: nat): nat
    requires perLog > 0
  {
    segment % perLog
  }

  /** formatWALFileName; `perLog` is the number of segments for each value of the high part. */
  function FormatName(timeline: nat, segment: nat, perLog: nat): string
    requires perLog > 0
  {
    Format(timeline, 8) + Format(High(segment, perLog), 8) + Format(Low(segment, perLog), 8)
  }

  function ParseName(name: string, perLog: nat): Parsed {
    if |name| != 24 then Bad(NotWalFilename)
    else
      var timeline, high, low := Parse(name[0..8]), Parse(name[8..16]), Parse(name[16..24]);
      if timeline.None? || high.None? || low.None? then Bad(BadDigit)
      else if low.value >= perLog then Bad(IncorrectLogSegNo)
      else Good(timeline.value, high.value * perLog + low.value)
  }

  lemma Eight()
    ensures Pow16(8) == UINT32
  {
    assert Pow16(2) == 0x100;
    assert Pow16(4) == 0x1_0000;
    assert Pow16(6) == 0x100_0000;
  }

  lemma Divide(high: nat, low: nat, perLog: nat)
    requires low < perLog
    ensures High(high * perLog + low, perLog) == high && Low(high * perLog + low, perLog) == low
  {
    var x := high * perLog + low;
    var q, r := x / perLog, x % perLog;
    assert (q - high) * perLog == low - r;
    Factor(q - high, perLog);
  }

  lemma Factor(k: int, perLog: int)
    requires perLog >= 0
    ensures k >= 1 ==> k * perLog >= perLog
    ensures k <= -1 ==> k * perLog <= -perLog
  {
  }

  lemma Join(x: nat, perLog: nat)
    requires perLog > 0
    ensures High(x, perLog) * perLog + Low(x, perLog) == x && Low(x, perLog) < perLog
  {
  }

  /** Parsing undoes formatting exactly when the high part fits in 32 bits. */
  lemma ParseFormatName(timeline: nat, segment: nat, perLog: nat)
    requires 0 < perLog <= UINT32 && timeline < UINT32
    ensures ParseName(FormatName(timeline, segment, perLog), perLog) == Good(timeline, segment)
       <==> High(segment, perLog) < UINT32
  {
    hide Format, Parse, Pow16, High, Low;
    var high, low := High(segment, perLog), Low(segment, perLog);
    Join(segment, perLog);
    var t, h, l := Format(timeline, 8), Format(high, 8), Format(low, 8);
    Eight();
    FormatWidth(timeline, 8);
    FormatWidth(high, 8);
    FormatWidth(low, 8);
    ParseFormat(timeline, 8);
    ParseFormat(high, 8);
    ParseFormat(low, 8);
    var name := t + h + l;
    if high < UINT32 {
      assert name[0..8] == t && name[8..16] == h && name[16..24] == l;
    }
  }

  /** Formatting undoes parsing, up to the case of the digits. */
  lemma FormatParseName(name: string, perLog: nat)
    requires ParseName(name, perLog).Good?
    ensures var p := ParseName(name, perLog);
      && p.timeline < UINT32 && High(p.segment, perLog) < UINT32
      && FormatName(p.timeline, p.segment, perLog) == UpperAll(name)
  {
    hide Format, Parse, Pow16, High, Low;
    var t, h, l := name[0..8], name[8..16], name[16..24];
    Eight();
    FormatParse(t);
    FormatParse(h);
    FormatParse(l);
    Divide(Parse(h).value, Parse(l).value, perLog);
    assert UpperAll(name) == UpperAll(t) + UpperAll(h) + UpperAll(l);
  }

  /** Two names: the 42nd segment, and one whose number needs the high part. */
  lemma NamesLookLike()
    ensures FormatName(1, 42, 256) == "00000001000000000000002A"
    ensures FormatName(0xAB, 0x10F, 256) == "000000AB000000010000000F"
  {
    hide Format;
    FormatSmall(1);
    FormatSmall(0);
    FormatTwo(2, 10);
    FormatTwo(10, 11);
    FormatSmall(15);
  }

  /** One digit in eight places. */
  lemma FormatSmall(n: nat)
    requires n < 16
    ensures Format(n, 8) == "0000000" + [Digit(n)]
  {
    hide Digit, Format;
    Nought(7);
    LowDigit(n, 8);
  }

  lemma FormatTwo(m: nat, n: nat)
    requires m < 16 && n < 16
    ensures Format(16 * m + n, 8) == "000000" + [Digit(m)] + [Digit(n)]
  {
    hide Digit, Format;
    Nought(6);
    LowDigit(m, 7);
    LowDigit(16 * m + n, 8);
  }

  lemma LowDigit(n: nat, width: nat)
    requires width > 0
    ensures Format(n, width) == Format(n / 16, width - 1) + [Digit(n % 16)]
  {
  }

  lemma {:induction false} Nought(width: nat)
    ensures |Format(0, width)| == width && forall k :: 0 <= k < width ==> Format(0, width)[k] == '0'
  {
    if width > 0 {
      Nought(width - 1);
    }
  }

  /** On one timeline the order of names is the order of segment numbers. */
  lemma NameOrder(timeline: nat, m: nat, n: nat, perLog: nat)
    requires 0 < perLog <= UINT32 && timeline < UINT32 && High(m, perLog) < UINT32 && High(n, perLog) < UINT32
    ensures Less(FormatName(timeline, m, perLog), FormatName(timeline, n, perLog)) <==> m < n
  {
    hide Format, Less, High, Low;
    var mh, ml, nh, nl := High(m, perLog), Low(m, perLog), High(n, perLog), Low(n, perLog);
    Join(m, perLog);
    Join(n, perLog);
    DigitsOrder(Format(timeline, 8), mh, ml, nh, nl);
    PartsOrder(mh, ml, nh, nl, perLog);
  }

  lemma DigitsOrder(t: string, mh: nat, ml: nat, nh: nat, nl: nat)
    requires mh < UINT32 && ml < UINT32 && nh < UINT32 && nl < UINT32
    ensures Less(t + Format(mh, 8) + Format(ml, 8), t + Format(nh, 8) + Format(nl, 8)) <==> mh < nh || (mh == nh && ml < nl)
  {
    hide Format, Less, Pow16;
    Eight();
    FormatOrder(mh, nh, 8);
    FormatOrder(ml, nl, 8);
    FormatWidth(mh, 8);
    FormatWidth(nh, 8);
    var x, y := Format(mh, 8) + Format(ml, 8), Format(nh, 8) + Format(nl, 8);
    LessAppend(Format(mh, 8), Format(nh, 8), Format(ml, 8), Format(nl, 8));
    LessAppend(t, t, x, y);
    NotLessItself(t);
    assert t + x == t + Format(mh, 8) + Format(ml, 8) && t + y == t + Format(nh, 8) + Format(nl, 8);
  }

  lemma {:induction false} NotLessItself(s: string)
    ensures !Less(s, s)
  {
    if s != [] {
      NotLessItself(s[1..]);
    }
  }

  lemma PartsOrder(mh: nat, ml: nat, nh: nat, nl: nat, perLog: nat)
    requires ml < perLog && nl < perLog
    ensures mh * perLog + ml < nh * perLog + nl <==> mh < nh || (mh == nh && ml < nl)
  {
    assert (nh - mh) * perLog == nh * perLog - mh * perLog;
    Factor(nh - mh, perLog);
  }

  /** GetNextWalFilename. */
  function NextName(name: string, perLog: nat): Option<string> {
    var p := ParseName(name, perLog);
    if p.Bad? then None else Some(FormatName(p.timeline, p.segment + 1, perLog))
  }

  /** The next name counts on in the low part and carries into the high part. */
  lemma NextCarries(name: string, perLog: nat)
    requires ParseName(name, perLog).Good?
    ensures var high, low := Parse(name[8..16]).value, Parse(name[16..24]).value;
      NextName(name, perLog) == Some(UpperAll(name[0..8])
        + (if low + 1 < perLog then Format(high, 8) + Format(low + 1, 8) else Format(high + 1, 8) + Format(0, 8)))
  {
    hide Format, Parse, UpperAll, High, Low;
    var t, h, l := name[0..8], name[8..16], name[16..24];
    var high, low := Parse(h).value, Parse(l).value;
    FormatParse(t);
    if low + 1 < perLog {
      Divide(high, low + 1, perLog);
      assert FormatName(Parse(t).value, high * perLog + low + 1, perLog)
          == UpperAll(t) + (Format(high, 8) + Format(low + 1, 8));
    } else {
      Divide(high + 1, 0, perLog);
      assert (high + 1) * perLog == high * perLog + low + 1;
      assert FormatName(Parse(t).value, high * perLog + low + 1, perLog)
          == UpperAll(t) + (Format(high + 1, 8) + Format(0, 8));
    }
  }

  /** The next name is the name of the next segment, until the high part overflows. */
  lemma NextIsSuccessor(name: string, perLog: nat)
    requires perLog <= UINT32 && ParseName(name, perLog).Good?
    ensures var p := ParseName(name, perLog);
      ParseName(NextName(name, perLog).value, perLog) == Good(p.timeline, p.segment + 1) <==> High(p.segment + 1, perLog) < UINT32
  {
    hide ParseName, FormatName, High;
    var p := ParseName(name, perLog);
    GoodPerLog(name, perLog);
    FormatParseName(name, perLog);
    ParseFormatName(p.timeline, p.segment + 1, perLog);
  }

  lemma GoodPerLog(name: string, perLog: nat)
    requires ParseName(name, perLog).Good?
    ensures perLog > 0
  {
  }
}
