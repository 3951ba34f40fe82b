/** The receive path of src/bodet_capture.py: the rolling buffer that cuts
    frames out of the TCP byte stream (`_handle_client`, and the identical
    loop of the client mode), and the queue consumer that parses each frame
    and folds it into the match state (`_process_messages`). */
module Capture {
  import opened Bytes
  import opened Parser
  import opened Output

  // ---------------------------------------------------------------------------
  // Frame assembler, as a function of the buffer
  // ---------------------------------------------------------------------------

  /** What one run of the inner loop produces: the frames cut off the front
      of the buffer, in order, and the bytes left in the buffer. */
  datatype Split = Split(frames: seq<seq<byte>>, rest: seq<byte>)

  /** A complete frame in the assembler's sense: SOH first, and its first ETX
      after offset 0 is followed by exactly one (checksum) byte. */
  predicate IsFrame(f: seq<byte>) {
    |f| >= 3 && f[0] == SOH && IndexOf(f, ETX, 1) == |f| - 2
  }

  /** The buffer holds SOH .. ETX plus a checksum byte. */
  predicate HasCompleteFrame(b: seq<byte>) {
    var e := IndexOf(b, ETX, 1);
    e != -1 && e + 1 < |b|
  }

  /** The loop `while len(buffer) > 0` of `_handle_client`, unrolled as a
      recursion: find the first SOH and drop the bytes before it (the whole
      buffer when there is none), then go on at that SOH. */
  function Extract(buf: seq<byte>): Split
    decreases |buf|, 1
  {
    if |buf| == 0 then Split([], [])
    else
      var soh := IndexOf(buf, SOH, 0);
      if soh == -1 then Split([], [])
      else ExtractAtSoh(buf[soh..])
  }

  /** The rest of one iteration, on a buffer that starts at SOH: find the
      first ETX after offset 0; with the checksum byte present, cut
      SOH..ETX+LRC and repeat on what follows, otherwise wait for more. */
  function ExtractAtSoh(b: seq<byte>): Split
    decreases |b|, 0
  {
    var etx := IndexOf(b, ETX, 1);
    if etx == -1 || |b| <= etx + 1 then Split([], b)
    else
      var tail := Extract(b[etx + 2..]);
      Split([b[..etx + 2]] + tail.frames, tail.rest)
  }

  /** A buffer that already starts with SOH loses nothing to the SOH scan. */
  lemma ExtractStartingAtSoh(b: seq<byte>)
    requires |b| > 0 && b[0] == SOH
    ensures Extract(b) == ExtractAtSoh(b)
  {
    assert IndexOf(b, SOH, 0) == 0;
    assert b[0..] == b;
  }

  /** The iteration that cuts the frame at the front of the buffer. */
  lemma ExtractCut(b: seq<byte>, etx: int)
    requires |b| > 0 && b[0] == SOH
    requires etx == IndexOf(b, ETX, 1) && etx != -1 && etx + 1 < |b|
    ensures Extract(b) == Split([b[..etx + 2]] + Extract(b[etx + 2..]).frames, Extract(b[etx + 2..]).rest)
  {
    ExtractStartingAtSoh(b);
  }

  /** Dropping the bytes before the first SOH does not change the outcome. */
  lemma ExtractFromFirstSoh(buf: seq<byte>)
    requires IndexOf(buf, SOH, 0) != -1
    ensures Extract(buf) == Extract(buf[IndexOf(buf, SOH, 0)..])
  {
    ExtractStartingAtSoh(buf[IndexOf(buf, SOH, 0)..]);
  }

  /** The span cut off the front of the buffer is a frame. */
  lemma FirstFrameIsFrame(b: seq<byte>, etx: int)
    requires |b| > 0 && b[0] == SOH
    requires etx == IndexOf(b, ETX, 1) && etx != -1 && etx + 1 < |b|
    ensures IsFrame(b[..etx + 2])
  {
    var f := b[..etx + 2];
    IndexOfSpec(b, ETX, 1);
    assert f[etx] == ETX;
    assert forall j :: 1 <= j < etx ==> f[j] == b[j];
    IndexOfIs(f, ETX, 1, etx);
  }

  /** Every emitted frame is well formed; the loop stops with an empty
      buffer or one that starts with SOH and holds no complete frame; a
      buffer without SOH is cleared and emits nothing. */
  lemma {:induction false} ExtractShape(buf: seq<byte>)
    ensures forall f :: f in Extract(buf).frames ==> IsFrame(f)
    ensures var rest := Extract(buf).rest;
      rest == [] || (rest[0] == SOH && !HasCompleteFrame(rest))
    ensures (forall j :: 0 <= j < |buf| ==> buf[j] != SOH) ==> Extract(buf) == Split([], [])
    decreases |buf|
  {
    NoSohFound(buf);
    if |buf| == 0 {
      return;
    }
    var soh := IndexOf(buf, SOH, 0);
    if soh == -1 {
      ExtractNoSoh(buf);
      return;
    }
    var b := buf[soh..];
    assert b[0] == SOH;
    var etx := IndexOf(b, ETX, 1);
    if etx == -1 || |b| <= etx + 1 {
      UnfoldWait(buf, soh);
      return;
    }
    var tail := b[etx + 2..];
    var t := Extract(tail);
    assert Extract(buf) == Split([b[..etx + 2]] + t.frames, t.rest) by {
      UnfoldCut(buf, soh, etx);
    }
    assert forall f :: f in t.frames ==> IsFrame(f) by {
      ExtractShape(tail);
    }
    assert IsFrame(b[..etx + 2]) by {
      FirstFrameIsFrame(b, etx);
    }
    assert t.rest == [] || (t.rest[0] == SOH && !HasCompleteFrame(t.rest)) by {
      ExtractShape(tail);
    }
  }

  /** A non-empty buffer without SOH is discarded whole. */
  lemma ExtractNoSoh(buf: seq<byte>)
    requires |buf| > 0 && IndexOf(buf, SOH, 0) == -1
    ensures Extract(buf) == Split([], [])
  {
  }

  /** The SOH scan finds nothing exactly when the buffer holds no SOH. */
  lemma NoSohFound(buf: seq<byte>)
    ensures IndexOf(buf, SOH, 0) == -1 <==> forall j :: 0 <= j < |buf| ==> buf[j] != SOH
  {
    IndexOfSpec(buf, SOH, 0);
  }

  /** A buffer that starts with SOH and holds no complete frame is left as it
      is: nothing is emitted and nothing is dropped. */
  lemma ExtractIncomplete(b: seq<byte>)
    requires b == [] || (b[0] == SOH && !HasCompleteFrame(b))
    ensures Extract(b) == Split([], b)
  {
    if b != [] {
      ExtractStartingAtSoh(b);
    }
  }

  /** What the loop leaves behind is a fixed point: extracting it again
      changes nothing. */
  lemma ResidueIsStable(buf: seq<byte>)
    ensures Extract(Extract(buf).rest) == Split([], Extract(buf).rest)
  {
    ExtractShape(buf);
    ExtractIncomplete(Extract(buf).rest);
  }

  /** Garbage without SOH in front of c is dropped as if it had never come. */
  lemma ExtractAfterGarbage(g: seq<byte>, c: seq<byte>)
    requires forall j :: 0 <= j < |g| ==> g[j] != SOH
    ensures Extract(g + c) == Extract(c)
  {
    var x := g + c;
    if |c| == 0 {
      assert x == g;
      NoSohFound(g);
      if |g| > 0 {
        ExtractNoSoh(g);
      }
      return;
    }
    var sc := IndexOf(c, SOH, 0);
    assert IndexOf(x, SOH, 0) == (if sc == -1 then -1 else |g| + sc) by {
      IndexOfSkipPrefix(g, c, SOH, 0);
      IndexOfShift(g, c, SOH, 0);
    }
    if sc == -1 {
      ExtractNoSoh(x);
      ExtractNoSoh(c);
    } else {
      var k := |g| + sc;
      assert x[k..] == c[sc..];
    }
  }

  /** Split invariance for one boundary: extracting buf ++ c is extracting
      buf, then extracting what was left followed by c. */
  lemma {:induction false} ExtractAppend(buf: seq<byte>, c: seq<byte>)
    ensures var first := Extract(buf);
      var second := Extract(first.rest + c);
      Extract(buf + c) == Split(first.frames + second.frames, second.rest)
    decreases |buf|, 2
  {
    if |buf| == 0 {
      assert buf + c == c;
      return;
    }
    var soh := IndexOf(buf, SOH, 0);
    if soh == -1 {
      GarbageThenMore(buf, c);
      assert [] + c == c;
    } else {
      SohThenMore(buf, c, soh);
      ExtractAppendAtSoh(buf[soh..], c);
    }
  }

  /** A buffer without SOH emits nothing, and does not change what the
      bytes after it give. */
  lemma GarbageThenMore(buf: seq<byte>, c: seq<byte>)
    requires |buf| > 0 && IndexOf(buf, SOH, 0) == -1
    ensures Extract(buf) == Split([], []) && Extract(buf + c) == Extract(c)
  {
    ExtractNoSoh(buf);
    NoSohFound(buf);
    ExtractAfterGarbage(buf, c);
  }

  /** Appending bytes does not move the first SOH of a buffer that has one. */
  lemma SohThenMore(buf: seq<byte>, c: seq<byte>, soh: int)
    requires soh == IndexOf(buf, SOH, 0) && soh != -1
    ensures buf[soh..] != [] && buf[soh..][0] == SOH
    ensures Extract(buf) == ExtractAtSoh(buf[soh..])
    ensures Extract(buf + c) == ExtractAtSoh(buf[soh..] + c)
  {
    IndexOfAppend(buf, c, SOH, 0);
    assert (buf + c)[soh..] == buf[soh..] + c;
  }

  lemma {:induction false} ExtractAppendAtSoh(b: seq<byte>, c: seq<byte>)
    requires |b| > 0 && b[0] == SOH
    ensures var first := ExtractAtSoh(b);
      var second := Extract(first.rest + c);
      ExtractAtSoh(b + c) == Split(first.frames + second.frames, second.rest)
    decreases |b|, 1
  {
    var etx := IndexOf(b, ETX, 1);
    if etx == -1 || |b| <= etx + 1 {
      assert ExtractAtSoh(b) == Split([], b);
      assert ExtractAtSoh(b + c) == Extract(b + c) by {
        ExtractStartingAtSoh(b + c);
      }
      assert [] + Extract(b + c).frames == Extract(b + c).frames;
    } else {
      ExtractAppendAfterCut(b, c, etx);
    }
  }

  /** ExtractAppendAtSoh when b already holds a complete frame: the frame is
      cut from b ++ c as from b, and the rest follows by induction. */
  lemma {:induction false} ExtractAppendAfterCut(b: seq<byte>, c: seq<byte>, etx: int)
    requires etx == IndexOf(b, ETX, 1) && etx != -1 && etx + 1 < |b|
    ensures var first := ExtractAtSoh(b);
      var second := Extract(first.rest + c);
      ExtractAtSoh(b + c) == Split(first.frames + second.frames, second.rest)
    decreases |b|, 0
  {
    var tail := b[etx + 2..];
    var t1 := Extract(tail);
    var t2 := Extract(tail + c);
    AtSohCut(b, etx);
    AtSohCutAppend(b, c, etx);
    ExtractAppend(tail, c);
    ConsAssoc(b[..etx + 2], t1.frames, Extract(t1.rest + c).frames);
  }

  /** Appending bytes after a complete frame does not move the frame. */
  lemma AtSohCutAppend(b: seq<byte>, c: seq<byte>, etx: int)
    requires etx == IndexOf(b, ETX, 1) && etx != -1 && etx + 1 < |b|
    ensures ExtractAtSoh(b + c) == Split([b[..etx + 2]] + Extract(b[etx + 2..] + c).frames, Extract(b[etx + 2..] + c).rest)
  {
    var bc := b + c;
    IndexOfAppend(b, c, ETX, 1);
    assert bc[..etx + 2] == b[..etx + 2];
    assert bc[etx + 2..] == b[etx + 2..] + c;
    AtSohCut(bc, etx);
  }

  lemma ConsAssoc(f: seq<byte>, xs: seq<seq<byte>>, ys: seq<seq<byte>>)
    ensures [f] + (xs + ys) == ([f] + xs) + ys
  {
  }

  /** ExtractAtSoh on a buffer holding a complete frame. */
  lemma AtSohCut(b: seq<byte>, etx: int)
    requires etx == IndexOf(b, ETX, 1) && etx != -1 && etx + 1 < |b|
    ensures ExtractAtSoh(b) == Split([b[..etx + 2]] + Extract(b[etx + 2..]).frames, Extract(b[etx + 2..]).rest)
  {
  }

  /** A frame at the front of the buffer is emitted first, and the rest of
      the buffer is then processed on its own. */
  lemma ExtractFrameFirst(f: seq<byte>, rest: seq<byte>)
    requires IsFrame(f)
    ensures Extract(f + rest) == Split([f] + Extract(rest).frames, Extract(rest).rest)
  {
    var x := f + rest;
    ExtractStartingAtSoh(x);
    IndexOfAppend(f, rest, ETX, 1);
    assert x[..|f|] == f;
    assert x[|f|..] == rest;
  }

  /** Several frames arriving back to back in one chunk are all emitted, in
      wire order, and the buffer is left empty. */
  lemma {:induction false} ExtractConcatenatedFrames(fs: seq<seq<byte>>)
    requires forall k :: 0 <= k < |fs| ==> IsFrame(fs[k])
    ensures Extract(Flatten(fs)) == Split(fs, [])
  {
    if fs != [] {
      ExtractConcatenatedFrames(fs[1..]);
      ExtractFrameFirst(fs[0], Flatten(fs[1..]));
      assert [fs[0]] + fs[1..] == fs;
    }
  }

  // ---------------------------------------------------------------------------
  // Conservation: bytes are kept in order, only garbage runs are dropped
  // ---------------------------------------------------------------------------

  /** The garbage dropped by the loop: the bytes skipped before each emitted
      frame, then those skipped before the residue (or at the end). */
  function Skipped(buf: seq<byte>): seq<seq<byte>>
    decreases |buf|, 1
  {
    if |buf| == 0 then [[]]
    else
      var soh := IndexOf(buf, SOH, 0);
      if soh == -1 then [buf]
      else [buf[..soh]] + SkippedAtSoh(buf[soh..])
  }

  /** The garbage runs dropped after the frame that starts `b`. */
  function SkippedAtSoh(b: seq<byte>): seq<seq<byte>>
    decreases |b|, 0
  {
    var etx := IndexOf(b, ETX, 1);
    if etx == -1 || |b| <= etx + 1 then [] else Skipped(b[etx + 2..])
  }

  /** g0 ++ f0 ++ g1 ++ f1 ++ ... ++ gn. */
  function Weave(gs: seq<seq<byte>>, fs: seq<seq<byte>>): seq<byte>
    requires |gs| == |fs| + 1
    decreases |fs|
  {
    if |fs| == 0 then gs[0] else gs[0] + fs[0] + Weave(gs[1..], fs[1..])
  }

  /** One loop iteration that cuts a frame, as seen by Extract and Skipped. */
  lemma UnfoldCut(buf: seq<byte>, soh: int, etx: int)
    requires soh == IndexOf(buf, SOH, 0) && soh != -1
    requires etx == IndexOf(buf[soh..], ETX, 1) && etx != -1 && etx + 1 < |buf| - soh
    ensures var b := buf[soh..];
      var t := Extract(b[etx + 2..]);
      Extract(buf) == Split([b[..etx + 2]] + t.frames, t.rest) &&
      Skipped(buf) == [buf[..soh]] + Skipped(b[etx + 2..])
  {
  }

  /** One loop iteration that stops to wait, as seen by Extract and Skipped. */
  lemma UnfoldWait(buf: seq<byte>, soh: int)
    requires soh == IndexOf(buf, SOH, 0) && soh != -1
    requires var etx := IndexOf(buf[soh..], ETX, 1); etx == -1 || etx + 1 >= |buf| - soh
    ensures Extract(buf) == Split([], buf[soh..])
    ensures Skipped(buf) == [buf[..soh]]
  {
  }

  /** As many dropped runs as frames, plus one. */
  lemma {:induction false} SkippedCount(buf: seq<byte>)
    ensures |Skipped(buf)| == |Extract(buf).frames| + 1
    decreases |buf|
  {
    if |buf| > 0 {
      var soh := IndexOf(buf, SOH, 0);
      if soh != -1 {
        var etx := IndexOf(buf[soh..], ETX, 1);
        if etx == -1 || etx + 1 >= |buf| - soh {
          UnfoldWait(buf, soh);
        } else {
          UnfoldCut(buf, soh, etx);
          SkippedCount(buf[soh..][etx + 2..]);
        }
      }
    }
  }

  /** The dropped runs never hold an SOH. */
  lemma {:induction false} SkippedHasNoSoh(buf: seq<byte>)
    ensures forall k, j :: 0 <= k < |Skipped(buf)| && 0 <= j < |Skipped(buf)[k]| ==> Skipped(buf)[k][j] != SOH
    decreases |buf|
  {
    if |buf| > 0 {
      IndexOfSpec(buf, SOH, 0);
      var soh := IndexOf(buf, SOH, 0);
      if soh != -1 {
        var etx := IndexOf(buf[soh..], ETX, 1);
        if etx == -1 || etx + 1 >= |buf| - soh {
          UnfoldWait(buf, soh);
        } else {
          UnfoldCut(buf, soh, etx);
          var tail := buf[soh..][etx + 2..];
          SkippedHasNoSoh(tail);
          var gs := Skipped(buf);
          forall k, j | 0 <= k < |gs| && 0 <= j < |gs[k]| ensures gs[k][j] != SOH {
            if k > 0 {
              assert gs[k] == Skipped(tail)[k - 1];
            }
          }
        }
      }
    }
  }

  lemma ThreeWaySplit(s: seq<byte>, i: nat, k: nat)
    requires i + k <= |s|
    ensures s == s[..i] + s[i..][..k] + s[i..][k..]
  {
    assert s[i..] == s[i..][..k] + s[i..][k..];
    assert s == s[..i] + s[i..];
  }

  /** Weaving one more garbage run and frame in front. */
  lemma WeaveCons(g: seq<byte>, f: seq<byte>, gs: seq<seq<byte>>, fs: seq<seq<byte>>, rest: seq<byte>)
    requires |gs| == |fs| + 1
    ensures Weave([g] + gs, [f] + fs) + rest == g + f + (Weave(gs, fs) + rest)
  {
    assert ([g] + gs)[1..] == gs;
    assert ([f] + fs)[1..] == fs;
  }

  /** No byte is reordered or duplicated: the input is the emitted frames and
      the residue, interleaved with the dropped runs. */
  lemma {:induction false} ExtractConserves(buf: seq<byte>)
    ensures |Skipped(buf)| == |Extract(buf).frames| + 1
    ensures buf == Weave(Skipped(buf), Extract(buf).frames) + Extract(buf).rest
    ensures forall k, j :: 0 <= k < |Skipped(buf)| && 0 <= j < |Skipped(buf)[k]| ==> Skipped(buf)[k][j] != SOH
    decreases |buf|
  {
    SkippedHasNoSoh(buf);
    SkippedCount(buf);
    if |buf| == 0 {
      return;
    }
    var soh := IndexOf(buf, SOH, 0);
    if soh == -1 {
      assert buf + [] == buf;
      return;
    }
    var b := buf[soh..];
    var etx := IndexOf(b, ETX, 1);
    if etx == -1 || etx + 1 >= |b| {
      UnfoldWait(buf, soh);
      assert buf == buf[..soh] + b;
      return;
    }
    var tail := b[etx + 2..];
    assert buf == buf[..soh] + b[..etx + 2] + tail by {
      ThreeWaySplit(buf, soh, etx + 2);
    }
    UnfoldCut(buf, soh, etx);
    ExtractConserves(tail);
    WeaveCons(buf[..soh], b[..etx + 2], Skipped(tail), Extract(tail).frames, Extract(tail).rest);
  }

  // ---------------------------------------------------------------------------
  // Feeding the stream chunk by chunk
  // ---------------------------------------------------------------------------

  /** The frames emitted, and the buffer left, when the chunks are received
      one `recv` at a time starting from `buffer`; an empty read means the
      peer closed the connection, and nothing after it is received. */
  function FeedAll(buffer: seq<byte>, chunks: seq<seq<byte>>): Split
    decreases |chunks|
  {
    if chunks == [] || chunks[0] == [] then Split([], buffer)
    else
      var s := Extract(buffer + chunks[0]);
      var t := FeedAll(s.rest, chunks[1..]);
      Split(s.frames + t.frames, t.rest)
  }

  /** Split invariance: because the buffer persists across reads, receiving
      the chunks one at a time emits the same frames, and leaves the same
      residue, as receiving their concatenation in one read. */
  lemma {:induction false} FeedAllIsSplitInvariant(buffer: seq<byte>, chunks: seq<seq<byte>>)
    requires Extract(buffer) == Split([], buffer)
    requires forall k :: 0 <= k < |chunks| ==> chunks[k] != []
    ensures FeedAll(buffer, chunks) == Extract(buffer + Flatten(chunks))
    decreases |chunks|
  {
    if chunks == [] {
      assert buffer + Flatten(chunks) == buffer;
    } else {
      var c, more := chunks[0], chunks[1..];
      var s := Extract(buffer + c);
      var t := FeedAll(s.rest, more);
      assert t == Extract(s.rest + Flatten(more)) by {
        ResidueIsStable(buffer + c);
        FeedAllIsSplitInvariant(s.rest, more);
      }
      assert Extract((buffer + c) + Flatten(more)) == Split(s.frames + t.frames, t.rest) by {
        ExtractAppend(buffer + c, Flatten(more));
      }
      assert buffer + Flatten(chunks) == (buffer + c) + Flatten(more) by {
        assert Flatten(chunks) == c + Flatten(more);
      }
    }
  }

  // ---------------------------------------------------------------------------
  // Queue consumer
  // ---------------------------------------------------------------------------

  /** One iteration of `_process_messages`: parse, and hand the result to
      the output handler only when parsing succeeded. */
  function Step(m: MatchData, frame: seq<byte>): (r: MatchData)
    ensures Parse(frame).None? ==> r == m
    ensures r.penalties == m.penalties
    ensures r.matchClock.period == m.matchClock.period
  {
    match Parse(frame)
    case None => m
    case Some(p) => Merge(m, p)
  }

  /** A frame that fails to parse, or parses without score, time or period
      (penalties, unknown type), leaves the state unchanged. */
  lemma StepWithoutFields(m: MatchData, f: seq<byte>)
    requires Parse(f).Some? ==>
      Parse(f).value.fields.score.None? && Parse(f).value.fields.time.None? && Parse(f).value.fields.period.None?
    ensures Step(m, f) == m
  {
    if Parse(f).Some? {
      MergeWithoutFieldsIsIdentity(m, Parse(f).value);
    }
  }

  /** The state after consuming the queued frames in order. */
  function ProcessAll(m: MatchData, frames: seq<seq<byte>>): MatchData
    decreases |frames|
  {
    if frames == [] then m else ProcessAll(Step(m, frames[0]), frames[1..])
  }

  /** Consuming two batches is consuming their concatenation. */
  lemma {:induction false} ProcessAllAppend(m: MatchData, f1: seq<seq<byte>>, f2: seq<seq<byte>>)
    ensures ProcessAll(m, f1 + f2) == ProcessAll(ProcessAll(m, f1), f2)
    decreases |f1|
  {
    if f1 == [] {
      assert f1 + f2 == f2;
    } else {
      assert (f1 + f2)[0] == f1[0];
      assert (f1 + f2)[1..] == f1[1..] + f2;
      ProcessAllAppend(Step(m, f1[0]), f1[1..], f2);
    }
  }

  /** No sequence of frames touches the penalty slots or the period: from
      the initial state the period stays 1 and every slot stays idle. */
  lemma {:induction false} ProcessAllKeepsPenaltiesAndPeriod(m: MatchData, frames: seq<seq<byte>>)
    ensures ProcessAll(m, frames).penalties == m.penalties
    ensures ProcessAll(m, frames).matchClock.period == m.matchClock.period
    decreases |frames|
  {
    if frames != [] {
      ProcessAllKeepsPenaltiesAndPeriod(Step(m, frames[0]), frames[1..]);
    }
  }

  /** A last frame that parses with a score sets the published score,
      whatever came before it. */
  lemma {:induction false} ProcessAllLastScoreWins(m: MatchData, frames: seq<seq<byte>>, f: seq<byte>)
    requires Parse(f).Some? && Parse(f).value.fields.score.Some?
    ensures ProcessAll(m, frames + [f]).score == Parse(f).value.fields.score.value
  {
    ProcessAllAppend(m, frames, [f]);
    assert [f][1..] == [];
  }

  /** The score carried by a frame, if it parses and carries one. */
  function ScoreOf(f: seq<byte>): Option<Score> {
    var p := Parse(f);
    if p.Some? then p.value.fields.score else None
  }

  /** Reference definition, read from the end: the score of the last frame
      that carries one, or `s` when none does. */
  function LastScore(s: Score, frames: seq<seq<byte>>): Score
    decreases |frames|
  {
    if frames == [] then s
    else
      var last := ScoreOf(frames[|frames| - 1]);
      if last.Some? then last.value else LastScore(s, frames[..|frames| - 1])
  }

  /** After any frame sequence, the score is that of the last frame that
      parsed with a score, or the old one if there was none. */
  lemma {:induction false} ProcessAllScore(m: MatchData, frames: seq<seq<byte>>)
    ensures ProcessAll(m, frames).score == LastScore(m.score, frames)
    decreases |frames|
  {
    if frames != [] {
      var init, f := frames[..|frames| - 1], frames[|frames| - 1];
      assert frames == init + [f];
      ProcessAllAppend(m, init, [f]);
      ProcessAllScore(m, init);
      var before := ProcessAll(m, init);
      assert ProcessAll(before, [f]) == Step(before, f) by {
        assert [f][1..] == [];
      }
      assert Step(before, f).score == if ScoreOf(f).Some? then ScoreOf(f).value else before.score by {
        if Parse(f).Some? {
          MergeFields(before, Parse(f).value);
        }
      }
    }
  }

  // ---------------------------------------------------------------------------
  // The objects
  // ---------------------------------------------------------------------------

  /** The server: the frame queue shared by the receiving connections and the
      single consumer that owns the output handler. */
  class CaptureServer {
    var messageQueue: seq<seq<byte>>
    const outputHandler: OutputHandler

    constructor ()
      ensures messageQueue == [] && fresh(outputHandler)
      ensures outputHandler.matchData == InitialMatchData()
    {
      messageQueue := [];
      outputHandler := new OutputHandler();
    }

    /** `_handle_client` for one connection, given the successive results of
        `recv`: the buffer lives as long as the connection, every read
        extends it, and the frames cut from it join the queue in order. The
        connection ends at the first empty read or when the reads run out;
        the buffer is then returned. */
    method HandleClient(received: seq<seq<byte>>) returns (buffer: seq<byte>)
      modifies this
      ensures messageQueue == old(messageQueue) + FeedAll([], received).frames
      ensures buffer == FeedAll([], received).rest
    {
      buffer := [];
      var i := 0;
      while i < |received|
        invariant 0 <= i <= |received|
        invariant messageQueue + FeedAll(buffer, received[i..]).frames == old(messageQueue) + FeedAll([], received).frames
        invariant FeedAll(buffer, received[i..]).rest == FeedAll([], received).rest
        invariant forall k :: 0 <= k < i ==> received[k] != []
      {
        var data := received[i];
        if data == [] {
          // the peer closed the connection
          break;
        }
        assert received[i..][1..] == received[i + 1..];
        buffer := buffer + data;
        var frames;
        frames, buffer := CutFrames(buffer);
        messageQueue := messageQueue + frames;
        i := i + 1;
      }
    }

    /** `_process_messages`: take the frames off the queue in FIFO order,
        parse each, update the match state for those that parse. */
    method ProcessMessages()
      modifies this, outputHandler
      ensures messageQueue == []
      ensures outputHandler.matchData == ProcessAll(old(outputHandler.matchData), old(messageQueue))
    {
      while |messageQueue| > 0
        invariant ProcessAll(outputHandler.matchData, messageQueue)
               == ProcessAll(old(outputHandler.matchData), old(messageQueue))
        decreases |messageQueue|
      {
        var message := messageQueue[0];
        messageQueue := messageQueue[1..];
        var parsedData := ParseMessage(message);
        if parsedData.Some? {
          outputHandler.UpdateMatchData(parsedData.value);
        }
      }
    }
  }

  /** The inner `while len(buffer) > 0` loop of `_handle_client`, on the
      buffer as it stands after a read: the frames it cuts, in order, and the
      bytes it leaves in the buffer. */
  method CutFrames(input: seq<byte>) returns (frames: seq<seq<byte>>, buffer: seq<byte>)
    ensures Split(frames, buffer) == Extract(input)
  {
    frames := [];
    buffer := input;
    while |buffer| > 0
      invariant Extract(input) == Split(frames + Extract(buffer).frames, Extract(buffer).rest)
      decreases |buffer|
    {
      var sohIndex := IndexOf(buffer, SOH, 0);
      if sohIndex == -1 {
        // no SOH anywhere: the link is out of step, discard everything
        ExtractNoSoh(buffer);
        StopKeeps(input, frames, buffer, []);
        buffer := [];
        break;
      }
      if sohIndex > 0 {
        // drop the garbage in front of the first SOH
        ExtractFromFirstSoh(buffer);
        buffer := buffer[sohIndex..];
      }
      var etxIndex := IndexOf(buffer, ETX, 1);
      if etxIndex == -1 {
        // incomplete message, wait for ETX
        ExtractStartingAtSoh(buffer);
        StopKeeps(input, frames, buffer, buffer);
        break;
      }
      if |buffer| > etxIndex + 1 {
        var message := buffer[..etxIndex + 2];
        CutKeeps(input, frames, buffer, etxIndex);
        buffer := buffer[etxIndex + 2..];
        frames := frames + [message];
      } else {
        // wait for the LRC byte
        ExtractStartingAtSoh(buffer);
        StopKeeps(input, frames, buffer, buffer);
        break;
      }
    }
  }

  /** CutFrames's loop invariant survives cutting the frame at the front. */
  lemma CutKeeps(input: seq<byte>, frames: seq<seq<byte>>, buffer: seq<byte>, etx: int)
    requires |buffer| > 0 && buffer[0] == SOH
    requires etx == IndexOf(buffer, ETX, 1) && etx != -1 && etx + 1 < |buffer|
    requires Extract(input) == Split(frames + Extract(buffer).frames, Extract(buffer).rest)
    ensures var t := Extract(buffer[etx + 2..]);
      Extract(input) == Split((frames + [buffer[..etx + 2]]) + t.frames, t.rest)
  {
    var t := Extract(buffer[etx + 2..]);
    ExtractCut(buffer, etx);
    assert (frames + [buffer[..etx + 2]]) + t.frames == frames + ([buffer[..etx + 2]] + t.frames);
  }

  /** When CutFrames's loop stops, its invariant gives its postcondition. */
  lemma StopKeeps(input: seq<byte>, frames: seq<seq<byte>>, buffer: seq<byte>, rest: seq<byte>)
    requires Extract(buffer) == Split([], rest)
    requires Extract(input) == Split(frames + Extract(buffer).frames, Extract(buffer).rest)
    ensures Extract(input) == Split(frames, rest)
  {
    assert frames + [] == frames;
  }
}
