/** The frame builder of the test sender (src/test_messages.py), and what the
    capture side makes of the frames it builds. */
module TestMessages {
  import opened Bytes
  import opened Parser
  import opened ClockText
  import opened Output
  import opened Capture

  /** `create_message`: SOH, then the address, STX, the payload and ETX,
      then the XOR of everything from the address through ETX. */
  function CreateMessage(data: seq<byte>): (m: seq<byte>)
    ensures |m| == |data| + 5
    ensures m[0] == SOH && m[1] == ADDRESS && m[2] == STX && m[|m| - 2] == ETX
    ensures m[3..|m| - 2] == data
    ensures Lrc(m[1..]) == 0
  {
    var messagePart := [ADDRESS, STX] + data + [ETX];
    LrcSelfCancel(messagePart);
    assert ([SOH] + messagePart + [Lrc(messagePart)])[1..] == messagePart + [Lrc(messagePart)];
    [SOH] + messagePart + [Lrc(messagePart)]
  }

  /** The payload holds no ETX byte, so its frame ends where it was built to. */
  predicate NoEtx(data: seq<byte>) {
    forall j :: 0 <= j < |data| ==> data[j] != ETX
  }

  /** The first ETX of a built frame, searched from offset 1 (assembler) or
      offset 3 (validator), is the one create_message put after the payload. */
  lemma CreatedEtx(data: seq<byte>)
    requires NoEtx(data)
    ensures IndexOf(CreateMessage(data), ETX, 1) == |data| + 3
    ensures EtxIndex(CreateMessage(data)) == |data| + 3
  {
    var m := CreateMessage(data);
    assert forall j :: 3 <= j < |data| + 3 ==> m[j] == data[j - 3];
    IndexOfIs(m, ETX, 1, |data| + 3);
    IndexOfIs(m, ETX, 3, |data| + 3);
  }

  /** A frame built from an ETX-free payload passes the validator's checksum
      comparison: the byte after ETX is the XOR of address through ETX. */
  lemma CreatedMessagePassesLrcCheck(data: seq<byte>)
    requires NoEtx(data)
    ensures var m := CreateMessage(data); var etx := EtxIndex(m);
      1 <= etx && etx + 1 < |m| && m[etx + 1] == Lrc(m[1..etx + 1])
  {
    var m := CreateMessage(data);
    CreatedEtx(data);
    var etx := |data| + 3;
    assert m[1..] == m[1..etx + 1] + [m[etx + 1]];
    LrcAppend(m[1..etx + 1], [m[etx + 1]]);
    assert Lrc([m[etx + 1]]) == m[etx + 1] by {
      assert [m[etx + 1]][..0] == [];
    }
  }

  /** Parsing a built frame decodes exactly the payload it was built from;
      it succeeds exactly when the payload has at least two bytes. */
  lemma ParseCreatedMessage(data: seq<byte>)
    requires NoEtx(data)
    ensures Parse(CreateMessage(data)) == ParseData(data)
    ensures Parse(CreateMessage(data)).Some? <==> |data| >= 2
    ensures Parse(CreateMessage(data)).Some? ==> Parse(CreateMessage(data)).value.rawData == data
  {
    CreatedEtx(data);
  }

  /** create_message does not escape ETX: a payload that holds one is cut
      short there by the validator, which decodes only the bytes before it. */
  lemma ParseCreatedMessageCutAtEtx(data: seq<byte>, k: nat)
    requires k < |data| && data[k] == ETX && NoEtx(data[..k])
    ensures Parse(CreateMessage(data)) == ParseData(data[..k])
  {
    var m := CreateMessage(data);
    assert forall j :: 3 <= j < k + 3 ==> m[j] == data[..k][j - 3];
    assert m[k + 3] == data[k];
    IndexOfIs(m, ETX, 3, k + 3);
    assert m[3..k + 3] == data[..k];
  }

  /** A frame built from an ETX-free payload is a frame for the assembler. */
  lemma CreatedMessageIsFrame(data: seq<byte>)
    requires NoEtx(data)
    ensures IsFrame(CreateMessage(data))
  {
    CreatedEtx(data);
  }

  /** The frames the sender writes for a list of payloads. */
  function CreateMessages(payloads: seq<seq<byte>>): (ms: seq<seq<byte>>)
    ensures |ms| == |payloads|
    ensures forall k :: 0 <= k < |ms| ==> ms[k] == CreateMessage(payloads[k])
  {
    seq(|payloads|, k requires 0 <= k < |payloads| => CreateMessage(payloads[k]))
  }

  /** Whatever the line noise before them (as long as it holds no SOH) and
      however TCP splits the byte stream into reads, built frames sent back
      to back are queued by `_handle_client` one by one, unchanged, in the
      order sent, and the buffer is left empty. */
  lemma CreatedMessagesSurviveAnySplit(noise: seq<byte>, payloads: seq<seq<byte>>, received: seq<seq<byte>>)
    requires forall j :: 0 <= j < |noise| ==> noise[j] != SOH
    requires forall k :: 0 <= k < |payloads| ==> NoEtx(payloads[k])
    requires forall k :: 0 <= k < |received| ==> received[k] != []
    requires Flatten(received) == noise + Flatten(CreateMessages(payloads))
    ensures FeedAll([], received) == Split(CreateMessages(payloads), [])
  {
    var ms := CreateMessages(payloads);
    forall k | 0 <= k < |ms| ensures IsFrame(ms[k]) {
      CreatedMessageIsFrame(payloads[k]);
    }
    ExtractConcatenatedFrames(ms);
    ExtractAfterGarbage(noise, Flatten(ms));
    FeedAllIsSplitInvariant([], received);
    assert [] + Flatten(received) == Flatten(received);
  }

  /** End to end: a score frame built from digit bytes sets the published
      score to the numbers those digits spell, from the initial state. */
  lemma ScoreMessageRoundTrip(data: seq<byte>)
    requires NoEtx(data) && |data| >= 10 && data[1] == 0x36
    requires IsDigit(data[5]) && IsDigit(data[6]) && IsDigit(data[7]) && IsDigit(data[8])
    ensures var m := ProcessAll(InitialMatchData(), [CreateMessage(data)]);
      m.score == Score(10 * DigitValue(data[5]) + DigitValue(data[6]), 10 * DigitValue(data[7]) + DigitValue(data[8])) &&
      m.matchClock == InitialMatchData().matchClock
  {
    ParseCreatedMessage(data);
    var p := ParseData(data).value;
    assert p.fields == ParseScore(data);
    assert [CreateMessage(data)][1..] == [];
  }

  /** End to end: a clock frame built from digit bytes publishes the time
      text those four digits spell, and touches nothing else. */
  lemma ClockMessageRoundTrip(data: seq<byte>)
    requires NoEtx(data) && |data| >= 9 && data[1] == 0x37
    requires IsDigit(data[5]) && IsDigit(data[6]) && IsDigit(data[7]) && IsDigit(data[8])
    ensures var m := ProcessAll(InitialMatchData(), [CreateMessage(data)]);
      0 <= m.matchClock.time.minutes <= 99 && 0 <= m.matchClock.time.seconds <= 99 &&
      FormatTime(m.matchClock.time) == [ToChar(data[5]), ToChar(data[6]), ':', ToChar(data[7]), ToChar(data[8])] &&
      m.score == InitialMatchData().score && m.matchClock.period == 1
  {
    ParseCreatedMessage(data);
    ClockDigitsRoundTrip(data);
    assert [CreateMessage(data)][1..] == [];
  }

  /** The payload the sender uses when none is given. */
  const DefaultPayload: seq<byte> := [0x47, 0x31, 0x31, 0x80, 0x37, 0x20, 0x34, 0x30, 0x37, 0x20, 0x30, 0x31]

  /** The characters of a byte string, one per byte. */
  function Chars(bs: seq<byte>): (s: string)
    ensures |s| == |bs| && forall i :: 0 <= i < |bs| ==> s[i] == ToChar(bs[i])
  {
    seq(|bs|, i requires 0 <= i < |bs| => ToChar(bs[i]))
  }

  /** The printable bytes of an all-printable byte string are all of it. */
  lemma {:induction false} PrintablesOfPrintable(p: seq<byte>)
    requires forall k :: 0 <= k < |p| ==> IsPrintable(p[k])
    ensures Printables(p) == Chars(p)
    decreases |p|
  {
    if p != [] {
      PrintablesOfPrintable(p[1..]);
      assert Chars(p) == [ToChar(p[0])] + Chars(p[1..]);
    }
  }

  /** Two printable runs around one control byte are two segments, each
      the text of its run. */
  lemma SegmentsAroundControl(a: seq<byte>, c: byte, b: seq<byte>)
    requires |a| > 0 && forall k :: 0 <= k < |a| ==> IsPrintable(a[k])
    requires |b| > 0 && forall k :: 0 <= k < |b| ==> IsPrintable(b[k])
    requires !IsPrintable(c)
    ensures Segments(a + [c] + b) == [Chars(a), Chars(b)]
  {
    SegmentsSplitAtControl(a, c, b);
    SegmentsOfPrintableRun(a);
    SegmentsOfPrintableRun(b);
    PrintablesOfPrintable(a);
    PrintablesOfPrintable(b);
  }

  /** The printable runs of the default payload, on either side of its
      0x80 byte: the text of bytes 0..2 ("G11") and of bytes 4..11
      ("7 407 01"). */
  lemma DefaultPayloadSegments()
    ensures Segments(DefaultPayload) == [Chars(DefaultPayload[..3]), Chars(DefaultPayload[4..])]
  {
    var d := DefaultPayload;
    var a, b := d[..3], d[4..];
    assert d == a + [d[3]] + b;
    assert forall k :: 0 <= k < |a| ==> IsPrintable(a[k]);
    assert forall k :: 0 <= k < |b| ==> IsPrintable(b[k]);
    SegmentsAroundControl(a, d[3], b);
  }

  /** The default test frame is of unknown type (its second byte is '1'):
      the generic decoder traces all twelve bytes and finds the printable
      runs "G11" and "7 407 01" on either side of the 0x80 byte. */
  lemma DefaultMessageIsUnknown()
    ensures var r := Parse(CreateMessage(DefaultPayload));
      r.Some? && r.value.messageType == UnknownMessage &&
      r.value.byte1 == 0x47 && r.value.byte2 == 0x31 && r.value.dataLength == 12 &&
      r.value.fields.byteAnalysis.Some? && |r.value.fields.byteAnalysis.value| == 12 &&
      r.value.fields.score.None? && r.value.fields.time.None? && r.value.fields.period.None? &&
      r.value.fields.asciiSegments == Some([Chars(DefaultPayload[..3]), Chars(DefaultPayload[4..])])
  {
    var d := DefaultPayload;
    assert Parse(CreateMessage(d)) == ParseData(d) by {
      assert NoEtx(d);
      ParseCreatedMessage(d);
    }
    DefaultPayloadSegments();
  }

  /** Sending the default test frame leaves the match state as it was. */
  lemma DefaultMessageLeavesStateAlone(m: MatchData)
    ensures ProcessAll(m, [CreateMessage(DefaultPayload)]) == m
  {
    var f := CreateMessage(DefaultPayload);
    assert Step(m, f) == m by {
      DefaultStepIsNoOp(m, f);
    }
    assert [f][1..] == [];
  }

  /** The default frame parses without score, time or period, so one step
      on it changes nothing. */
  lemma DefaultStepIsNoOp(m: MatchData, f: seq<byte>)
    requires f == CreateMessage(DefaultPayload)
    ensures Step(m, f) == m
  {
    DefaultMessageIsUnknown();
    StepWithoutFields(m, f);
  }

  /** The two segments of the default payload, as text. */
  lemma DefaultSegmentsText()
    ensures Chars(DefaultPayload[..3]) == "G11"
    ensures Chars(DefaultPayload[4..]) == "7 407 01"
  {
  }

  /** The whole pipeline for one score frame: SOH-free noise, then a built
      score frame, read in any chunks, is cut out by the assembler, accepted
      by the validator and publishes the score its digits spell; the buffer
      ends empty and the clock is untouched. */
  lemma ScoreFrameThroughPipeline(noise: seq<byte>, data: seq<byte>, received: seq<seq<byte>>)
    requires forall j :: 0 <= j < |noise| ==> noise[j] != SOH
    requires NoEtx(data) && |data| >= 10 && data[1] == 0x36
    requires IsDigit(data[5]) && IsDigit(data[6]) && IsDigit(data[7]) && IsDigit(data[8])
    requires forall k :: 0 <= k < |received| ==> received[k] != []
    requires Flatten(received) == noise + CreateMessage(data)
    ensures FeedAll([], received).rest == []
    ensures var m := ProcessAll(InitialMatchData(), FeedAll([], received).frames);
      m.score == Score(10 * DigitValue(data[5]) + DigitValue(data[6]), 10 * DigitValue(data[7]) + DigitValue(data[8])) &&
      m.matchClock == InitialMatchData().matchClock
  {
    var ms := CreateMessages([data]);
    assert ms == [CreateMessage(data)];
    assert Flatten(ms) == CreateMessage(data) by {
      assert ms[1..] == [];
      assert CreateMessage(data) + [] == CreateMessage(data);
    }
    CreatedMessagesSurviveAnySplit(noise, [data], received);
    ScoreMessageRoundTrip(data);
  }
}
