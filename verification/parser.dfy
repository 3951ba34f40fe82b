/** Frame validation and payload decoding for the Bodet Scorepad protocol
    (src/message_parser.py).  A frame is
    SOH(0x01) ADDRESS STX(0x02) PAYLOAD ETX(0x03) LRC. */
module Parser {
  import opened Bytes

  const SOH: byte := 0x01
  const STX: byte := 0x02
  const ETX: byte := 0x03
  const ADDRESS: byte := 0x7F

  // ---------------------------------------------------------------------------
  // Parsed message record (the Python result dictionary)
  // ---------------------------------------------------------------------------

  datatype MessageType = ScoreMessage | ClockMessage | PenaltiesMessage | UnknownMessage

  datatype Score = Score(home: int, guest: int)

  /** The decoded clock, kept as numbers; FormatTime renders it as "MM:SS". */
  datatype ClockTime = ClockTime(minutes: int, seconds: int)

  /** One entry of the diagnostic byte trace: the index and the byte there. */
  datatype ByteInfo = ByteInfo(index: nat, value: byte)

  /** The optional keys a decoder adds to the result dictionary. */
  datatype Fields = Fields(
    score: Option<Score>,
    time: Option<ClockTime>,
    period: Option<int>,
    byteAnalysis: Option<seq<ByteInfo>>,
    asciiSegments: Option<seq<string>>)

  const NoFields: Fields := Fields(None, None, None, None, None)

  datatype Parsed = Parsed(
    rawData: seq<byte>,
    dataLength: nat,
    messageType: MessageType,
    byte1: byte,
    byte2: byte,
    fields: Fields)

  // ---------------------------------------------------------------------------
  // Checksum
  // ---------------------------------------------------------------------------

  /** Longitudinal redundancy check: XOR of all bytes, folded left to right. */
  function Lrc(s: seq<byte>): byte
  {
    if |s| == 0 then 0 else Lrc(s[..|s| - 1]) ^ s[|s| - 1]
  }

  /** `_calculate_lrc` (also `calculate_lrc` in the test sender): the
      accumulator loop computes the XOR fold. */
  method CalculateLrc(data: seq<byte>) returns (lrc: byte)
    ensures lrc == Lrc(data)
  {
    lrc := 0;
    for i := 0 to |data|
      invariant lrc == Lrc(data[..i])
    {
      assert data[..i + 1][..i] == data[..i];
      lrc := lrc ^ data[i];
    }
    assert data[..|data|] == data;
  }

  /** The checksum of a concatenation is the XOR of the checksums. */
  lemma {:induction false} LrcAppend(a: seq<byte>, b: seq<byte>)
    ensures Lrc(a + b) == Lrc(a) ^ Lrc(b)
    decreases |b|
  {
    if |b| == 0 {
      assert a + b == a;
    } else {
      var b' := b[..|b| - 1];
      assert (a + b)[..|a + b| - 1] == a + b';
      LrcAppend(a, b');
    }
  }

  /** Appending its own checksum makes the XOR of everything zero. */
  lemma LrcSelfCancel(s: seq<byte>)
    ensures Lrc(s + [Lrc(s)]) == 0
  {
    assert (s + [Lrc(s)])[..|s|] == s;
  }

  /** Replacing one byte changes the checksum by exactly the XOR difference. */
  lemma LrcUpdate(s: seq<byte>, i: nat, x: byte)
    requires i < |s|
    ensures Lrc(s[i := x]) == Lrc(s) ^ s[i] ^ x
  {
    var p, q := s[..i], s[i + 1..];
    assert s == (p + [s[i]]) + q;
    assert s[i := x] == (p + [x]) + q;
    LrcAppend(p + [s[i]], q);
    LrcAppend(p + [x], q);
    LrcSnoc(p, s[i]);
    LrcSnoc(p, x);
    XorSwap(Lrc(p), Lrc(q), s[i], x);
  }

  lemma LrcSnoc(p: seq<byte>, y: byte)
    ensures Lrc(p + [y]) == Lrc(p) ^ y
  {
    assert (p + [y])[..|p|] == p;
  }

  lemma XorSwap(a: byte, b: byte, c: byte, x: byte)
    ensures (a ^ x) ^ b == ((a ^ c) ^ b) ^ c ^ x
  {
  }

  /** Flipping any non-empty set of bits of one byte changes the checksum. */
  lemma LrcDetectsSingleByteError(s: seq<byte>, i: nat, mask: byte)
    requires i < |s| && mask != 0
    ensures Lrc(s[i := s[i] ^ mask]) != Lrc(s)
  {
    LrcUpdate(s, i, s[i] ^ mask);
  }

  // ---------------------------------------------------------------------------
  // Type-specific decoders (dictionaries merged into the result)
  // ---------------------------------------------------------------------------

  /** `_parse_score_message`: ASCII digits at offsets 5,6 (home) and 7,8
      (guest); a non-digit byte is replaced by 0 before the arithmetic. */
  function ParseScore(data: seq<byte>): (r: Fields)
    ensures r.time.None? && r.period.None? && r.byteAnalysis.None? && r.asciiSegments.None?
    ensures r.score.Some? <==> |data| >= 10
    ensures r.score.Some? ==> (!IsDigit(data[5]) ==> r.score.value.home == 0)
    ensures r.score.Some? ==> (!IsDigit(data[7]) ==> r.score.value.guest == 0)
    ensures r.score.Some? && IsDigit(data[5]) && IsDigit(data[6]) ==>
      r.score.value.home == 10 * DigitValue(data[5]) + DigitValue(data[6]) && 0 <= r.score.value.home <= 99
    ensures r.score.Some? && IsDigit(data[7]) && IsDigit(data[8]) ==>
      r.score.value.guest == 10 * DigitValue(data[7]) + DigitValue(data[8]) && 0 <= r.score.value.guest <= 99
    ensures r.score.Some? && IsDigit(data[5]) && !IsDigit(data[6]) ==>
      r.score.value.home == 10 * DigitValue(data[5]) - 48
    ensures r.score.Some? && IsDigit(data[7]) && !IsDigit(data[8]) ==>
      r.score.value.guest == 10 * DigitValue(data[7]) - 48
  {
    if |data| >= 10 then
      var homeTens := if IsDigit(data[5]) then data[5] as int else 0;
      var homeOnes := if IsDigit(data[6]) then data[6] as int else 0;
      var guestTens := if IsDigit(data[7]) then data[7] as int else 0;
      var guestOnes := if IsDigit(data[8]) then data[8] as int else 0;
      var home := if homeTens >= 0x30 then (homeTens - 0x30) * 10 + (homeOnes - 0x30) else 0;
      var guest := if guestTens >= 0x30 then (guestTens - 0x30) * 10 + (guestOnes - 0x30) else 0;
      NoFields.(score := Some(Score(home, guest)))
    else
      NoFields
  }

  /** `_parse_clock_message`: minutes at offsets 5,6 and seconds at 7,8; the
      time is produced only when the minutes-tens byte is a digit. */
  function ParseClock(data: seq<byte>): (r: Fields)
    ensures r.score.None? && r.period.None? && r.byteAnalysis.None? && r.asciiSegments.None?
    ensures r.time.Some? <==> |data| >= 8 && IsDigit(data[5])
    ensures r.time.Some? ==> 0 <= r.time.value.minutes <= 99
    ensures r.time.Some? ==>
      r.time.value.minutes == if IsDigit(data[6]) then 10 * DigitValue(data[5]) + DigitValue(data[6])
                              else DigitValue(data[5])
    ensures r.time.Some? && |data| == 8 ==>
      r.time.value.seconds == if IsDigit(data[7]) then DigitValue(data[7]) else 0
    ensures r.time.Some? && |data| > 8 && IsDigit(data[7]) && IsDigit(data[8]) ==>
      r.time.value.seconds == 10 * DigitValue(data[7]) + DigitValue(data[8]) && 0 <= r.time.value.seconds <= 99
    ensures r.time.Some? && |data| > 8 && IsDigit(data[7]) && !IsDigit(data[8]) ==>
      r.time.value.seconds == DigitValue(data[7])
    ensures r.time.Some? && |data| > 8 && !IsDigit(data[7]) && IsDigit(data[8]) ==>
      r.time.value.seconds == -480 + DigitValue(data[8])
    ensures r.time.Some? && |data| > 8 && !IsDigit(data[7]) && !IsDigit(data[8]) ==>
      r.time.value.seconds == 0
  {
    if |data| >= 8 then
      var minTens := if IsDigit(data[5]) then data[5] as int else 0;
      var minOnes := if IsDigit(data[6]) then data[6] as int else 0;
      var secTens := if IsDigit(data[7]) then data[7] as int else 0;
      var secOnes := if |data| > 8 && IsDigit(data[8]) then data[8] as int else 0;
      if minTens >= 0x30 then
        var minutes := if minOnes >= 0x30 then (minTens - 0x30) * 10 + (minOnes - 0x30) else minTens - 0x30;
        var seconds := if secOnes >= 0x30 then (secTens - 0x30) * 10 + (secOnes - 0x30)
                       else if secTens >= 0x30 then secTens - 0x30
                       else 0;
        NoFields.(time := Some(ClockTime(minutes, seconds)))
      else
        NoFields
    else
      NoFields
  }

  /** `_parse_penalties_message`: a stub that adds no keys. */
  function ParsePenalties(data: seq<byte>): (r: Fields)
    ensures r.score.None? && r.time.None? && r.period.None?
    ensures r.byteAnalysis.None? && r.asciiSegments.None?
  {
    NoFields
  }

  // ---------------------------------------------------------------------------
  // Generic decoder
  // ---------------------------------------------------------------------------

  /** The byte trace: one entry per payload byte, capped at 20 entries. */
  function ByteAnalysis(data: seq<byte>): (r: seq<ByteInfo>)
    ensures |r| == Min(20, |data|)
    ensures forall i :: 0 <= i < |r| ==> r[i] == ByteInfo(i, data[i])
  {
    seq(Min(20, |data|), i requires 0 <= i < Min(20, |data|) => ByteInfo(i, data[i]))
  }

  /** Left-to-right scan that collects printable runs; `current` is the run
      being built.  A run is emitted when a non-printable byte or the end of
      the data is reached, and only when it is non-empty. */
  function Runs(data: seq<byte>, current: string): seq<string>
    decreases |data|
  {
    if |data| == 0 then
      (if current == [] then [] else [current])
    else if IsPrintable(data[0]) then
      Runs(data[1..], current + [ToChar(data[0])])
    else
      (if current == [] then [] else [current]) + Runs(data[1..], [])
  }

  function Segments(data: seq<byte>): seq<string> {
    Runs(data, [])
  }

  /** The `ascii_segments` key: absent when no run was found. */
  function AsciiSegments(data: seq<byte>): Option<seq<string>> {
    var segs := Segments(data);
    if segs == [] then None else Some(segs)
  }

  /** The keys `_parse_roller_hockey_generic` adds. */
  function GenericFields(data: seq<byte>): Fields {
    NoFields.(byteAnalysis := Some(ByteAnalysis(data)), asciiSegments := AsciiSegments(data))
  }

  /** `_parse_roller_hockey_generic`: two append loops, one for the byte
      trace, one for the printable runs. */
  method ParseRollerHockeyGeneric(data: seq<byte>) returns (r: Fields)
    ensures r == GenericFields(data)
  {
    var byteInfo: seq<ByteInfo> := [];
    var n := Min(20, |data|);
    for i := 0 to n
      invariant |byteInfo| == i
      invariant forall k :: 0 <= k < i ==> byteInfo[k] == ByteInfo(k, data[k])
    {
      byteInfo := byteInfo + [ByteInfo(i, data[i])];
    }
    var segments: seq<string> := [];
    var asciiParts: string := [];
    for i := 0 to |data|
      invariant segments + Runs(data[i..], asciiParts) == Segments(data)
    {
      assert data[i..][1..] == data[i + 1..];
      if IsPrintable(data[i]) {
        asciiParts := asciiParts + [ToChar(data[i])];
      } else {
        if asciiParts != [] {
          segments := segments + [asciiParts];
          asciiParts := [];
        }
      }
    }
    assert data[|data|..] == [];
    if asciiParts != [] {
      segments := segments + [asciiParts];
    }
    assert segments == Segments(data);
    assert byteInfo == ByteAnalysis(data);
    r := NoFields.(byteAnalysis := Some(byteInfo), asciiSegments := if segments == [] then None else Some(segments));
  }

  // ---------------------------------------------------------------------------
  // Dispatch and frame validation
  // ---------------------------------------------------------------------------

  /** The message type is chosen by the second payload byte alone. */
  function TypeOf(b2: byte): MessageType {
    if b2 == 0x36 then ScoreMessage
    else if b2 == 0x37 then ClockMessage
    else if b2 == 0x38 then PenaltiesMessage
    else UnknownMessage
  }

  /** `_parse_data`: payloads shorter than two bytes are rejected; otherwise
      the base record is extended with the keys of the chosen decoder. */
  function ParseData(data: seq<byte>): (r: Option<Parsed>)
    ensures r.None? <==> |data| < 2
    ensures r.Some? ==> r.value.rawData == data && r.value.dataLength == |data|
    ensures r.Some? ==> r.value.byte1 == data[0] && r.value.byte2 == data[1]
    ensures r.Some? ==> r.value.fields.period.None?
    ensures r.Some? ==> (r.value.messageType == ScoreMessage <==> data[1] == 0x36)
    ensures r.Some? ==> (r.value.messageType == ClockMessage <==> data[1] == 0x37)
    ensures r.Some? ==> (r.value.messageType == PenaltiesMessage <==> data[1] == 0x38)
    ensures r.Some? && r.value.fields.score.Some? ==> r.value.messageType == ScoreMessage
    ensures r.Some? && r.value.fields.time.Some? ==> r.value.messageType == ClockMessage
    ensures r.Some? && data[1] == 0x36 ==> r.value.fields == ParseScore(data)
    ensures r.Some? && data[1] == 0x37 ==> r.value.fields == ParseClock(data)
    ensures r.Some? && data[1] == 0x38 ==> r.value.fields == NoFields
    ensures r.Some? && r.value.messageType == UnknownMessage ==>
      r.value.fields.byteAnalysis == Some(ByteAnalysis(data)) && r.value.fields.asciiSegments == AsciiSegments(data)
  {
    if |data| < 2 then None
    else
      var base := Parsed(data, |data|, UnknownMessage, data[0], data[1], NoFields);
      var kind := TypeOf(data[1]);
      var extra := match kind
        case ScoreMessage => ParseScore(data)
        case ClockMessage => ParseClock(data)
        case PenaltiesMessage => ParsePenalties(data)
        case UnknownMessage => GenericFields(data);
      Some(base.(messageType := kind, fields := extra))
  }

  /** Index of the first ETX at or after offset 3, the end of the payload. */
  function EtxIndex(raw: seq<byte>): int {
    IndexOf(raw, ETX, 3)
  }

  /** `parse_message` as a function of the raw frame.  The address byte and
      the checksum byte are never consulted: an LRC mismatch is only logged. */
  function Parse(raw: seq<byte>): Option<Parsed>
  {
    if |raw| < 5 || raw[0] != SOH || raw[2] != STX then None
    else
      var etx := EtxIndex(raw);
      if etx == -1 || |raw| <= etx + 1 then None
      else ParseData(raw[3..etx])
  }

  /** `parse_message`: structural checks, the ETX search loop, the LRC
      computation (whose mismatch is non-fatal) and the payload decoding. */
  method ParseMessage(raw: seq<byte>) returns (r: Option<Parsed>)
    ensures r == Parse(raw)
  {
    if |raw| < 5 {
      return None;
    }
    if raw[0] != SOH {
      return None;
    }
    // raw[1] != ADDRESS is only reported, never rejected
    if raw[2] != STX {
      return None;
    }
    var etxIndex := -1;
    var i := 3;
    while i < |raw|
      invariant 3 <= i <= |raw|
      invariant etxIndex == -1
      invariant forall j :: 3 <= j < i ==> raw[j] != ETX
    {
      if raw[i] == ETX {
        etxIndex := i;
        break;
      }
      i := i + 1;
    }
    IndexOfIs(raw, ETX, 3, etxIndex);
    if etxIndex == -1 {
      return None;
    }
    var data := raw[3..etxIndex];
    if |raw| <= etxIndex + 1 {
      return None;
    }
    var receivedLrc := raw[etxIndex + 1];
    var calculatedLrc := CalculateLrc(raw[1..etxIndex + 1]);
    // receivedLrc != calculatedLrc: "continue anyway"
    r := ParseData(data);
  }

  // ---------------------------------------------------------------------------
  // Properties of the validator
  // ---------------------------------------------------------------------------

  /** The structural rejections: each one makes the parse fail. */
  lemma ParseRejects(raw: seq<byte>)
    ensures |raw| < 5 ==> Parse(raw).None?
    ensures |raw| >= 5 && raw[0] != SOH ==> Parse(raw).None?
    ensures |raw| >= 5 && raw[2] != STX ==> Parse(raw).None?
    ensures (forall j :: 3 <= j < |raw| ==> raw[j] != ETX) ==> Parse(raw).None?
    ensures EtxIndex(raw) == |raw| - 1 ==> Parse(raw).None?
  {
  }

  /** A frame that passes the structural checks parses exactly when its
      payload has at least two bytes, and then decodes that payload. */
  lemma ParseAccepts(raw: seq<byte>)
    requires |raw| >= 5 && raw[0] == SOH && raw[2] == STX
    requires EtxIndex(raw) != -1 && EtxIndex(raw) + 1 < |raw|
    ensures Parse(raw) == ParseData(raw[3..EtxIndex(raw)])
    ensures Parse(raw).Some? <==> EtxIndex(raw) >= 5
  {
  }

  /** The address byte never influences the outcome. */
  lemma ParseIgnoresAddress(raw: seq<byte>, address: byte)
    requires |raw| >= 2
    ensures Parse(raw[1 := address]) == Parse(raw)
  {
    var t := raw[1 := address];
    IndexOfAgree(raw, t, ETX, 3);
    if |raw| >= 5 && raw[0] == SOH && raw[2] == STX {
      var etx := EtxIndex(raw);
      if etx != -1 && |raw| > etx + 1 {
        assert t[3..etx] == raw[3..etx];
      }
    }
  }

  /** The received checksum byte never influences the outcome, and neither
      do bytes after it. */
  lemma ParseIgnoresChecksum(raw: seq<byte>, lrc: byte, tail: seq<byte>)
    requires |raw| >= 5 && EtxIndex(raw) != -1 && EtxIndex(raw) + 1 < |raw|
    ensures Parse(raw[EtxIndex(raw) + 1 := lrc] + tail) == Parse(raw)
  {
    var etx := EtxIndex(raw);
    var t := raw[etx + 1 := lrc] + tail;
    IndexOfSpec(raw, ETX, 3);
    IndexOfIs(raw[..etx + 1], ETX, 3, etx);
    assert raw[etx + 1 := lrc] == raw[..etx + 1] + [lrc] + raw[etx + 2..];
    IndexOfAppend(raw[..etx + 1], [lrc] + raw[etx + 2..] + tail, ETX, 3);
    IndexOfAppend(raw[..etx + 1], raw[etx + 1..], ETX, 3);
    assert raw[..etx + 1] + raw[etx + 1..] == raw;
    assert t == raw[..etx + 1] + ([lrc] + raw[etx + 2..] + tail);
    assert t[3..etx] == raw[3..etx];
  }

  /** The dispatch depends on the second payload byte only. */
  lemma DispatchOnSecondByte(d1: seq<byte>, d2: seq<byte>)
    requires |d1| >= 2 && |d2| >= 2 && d1[1] == d2[1]
    ensures ParseData(d1).value.messageType == ParseData(d2).value.messageType
  {
  }

  /** The parser never reports a period. */
  lemma ParseNeverSetsPeriod(raw: seq<byte>)
    ensures Parse(raw).Some? ==> Parse(raw).value.fields.period.None?
  {
  }

  // ---------------------------------------------------------------------------
  // Properties of the printable-run splitter
  // ---------------------------------------------------------------------------

  predicate AllPrintable(s: string) {
    forall k :: 0 <= k < |s| ==> ' ' <= s[k] <= '~'
  }

  /** The printable bytes of the payload, as characters, in order. */
  function Printables(data: seq<byte>): string
    decreases |data|
  {
    if data == [] then []
    else (if IsPrintable(data[0]) then [ToChar(data[0])] else []) + Printables(data[1..])
  }

  /** Every run is non-empty and printable; their concatenation is the
      current run followed by the printable bytes of the rest. */
  lemma {:induction false} RunsContents(data: seq<byte>, current: string)
    requires AllPrintable(current)
    ensures forall s :: s in Runs(data, current) ==> s != [] && AllPrintable(s)
    ensures Flatten(Runs(data, current)) == current + Printables(data)
    decreases |data|
  {
    if |data| == 0 {
    } else if IsPrintable(data[0]) {
      RunsContents(data[1..], current + [ToChar(data[0])]);
    } else {
      RunsContents(data[1..], []);
      var head: seq<string> := if current == [] then [] else [current];
      FlattenAppend(head, Runs(data[1..], []));
      assert Flatten(head) == current by {
        if current != [] { assert head[1..] == []; }
      }
    }
  }

  /** The segments are non-empty printable strings that together spell out
      the payload's printable bytes. */
  lemma SegmentsSpellPrintables(data: seq<byte>)
    ensures forall s :: s in Segments(data) ==> s != [] && AllPrintable(s)
    ensures Flatten(Segments(data)) == Printables(data)
  {
    RunsContents(data, []);
  }

  /** A run of printable bytes is one segment. */
  lemma {:induction false} RunsOfPrintable(p: seq<byte>, current: string)
    requires forall k :: 0 <= k < |p| ==> IsPrintable(p[k])
    ensures Runs(p, current) == if current + Printables(p) == [] then [] else [current + Printables(p)]
    decreases |p|
  {
    if |p| == 0 {
      assert current + Printables(p) == current;
    } else {
      var c := ToChar(p[0]);
      RunsOfPrintable(p[1..], current + [c]);
      assert Printables(p) == [c] + Printables(p[1..]);
      assert current + Printables(p) == (current + [c]) + Printables(p[1..]);
    }
  }

  /** A non-printable byte separates the segments on either side of it. */
  lemma {:induction false} RunsSplit(a: seq<byte>, c: byte, b: seq<byte>, current: string)
    requires !IsPrintable(c)
    ensures Runs(a + [c] + b, current) == Runs(a, current) + Runs(b, [])
    decreases |a|
  {
    var s := a + [c] + b;
    if |a| == 0 {
      assert s[1..] == b;
    } else {
      assert s[0] == a[0] && s[1..] == a[1..] + [c] + b;
      if IsPrintable(a[0]) {
        RunsSplit(a[1..], c, b, current + [ToChar(a[0])]);
      } else {
        RunsSplit(a[1..], c, b, []);
      }
    }
  }

  /** A control byte splits the segments: those of the bytes before it
      followed by those of the bytes after it. */
  lemma SegmentsSplitAtControl(a: seq<byte>, c: byte, b: seq<byte>)
    requires !IsPrintable(c)
    ensures Segments(a + [c] + b) == Segments(a) + Segments(b)
  {
    RunsSplit(a, c, b, []);
  }

  /** A non-empty all-printable payload is a single segment. */
  lemma SegmentsOfPrintableRun(p: seq<byte>)
    requires |p| > 0 && forall k :: 0 <= k < |p| ==> IsPrintable(p[k])
    ensures Segments(p) == [Printables(p)]
  {
    RunsOfPrintable(p, []);
    var text := Printables(p);
    assert text == [ToChar(p[0])] + Printables(p[1..]) by { assert IsPrintable(p[0]); }
    assert [] + text == text;
    assert text != [];
  }

  /** The `ascii_segments` key is present exactly when some byte is printable. */
  lemma {:induction false} AsciiSegmentsPresence(data: seq<byte>)
    ensures AsciiSegments(data).None? <==> forall k :: 0 <= k < |data| ==> !IsPrintable(data[k])
  {
    SegmentsSpellPrintables(data);
    PrintablesEmpty(data);
    if Segments(data) != [] {
      assert Segments(data)[0] in Segments(data);
      FlattenNonEmpty(Segments(data));
    }
  }

  lemma FlattenNonEmpty(ss: seq<string>)
    requires ss != [] && ss[0] != []
    ensures Flatten(ss) != []
  {
  }

  lemma {:induction false} PrintablesEmpty(data: seq<byte>)
    ensures Printables(data) == [] <==> forall k :: 0 <= k < |data| ==> !IsPrintable(data[k])
    decreases |data|
  {
    if data != [] {
      PrintablesEmpty(data[1..]);
      assert forall k :: 1 <= k < |data| ==> data[k] == data[1..][k - 1];
    }
  }
}
