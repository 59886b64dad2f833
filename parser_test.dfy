/*******************************************************************************
 *  The scenarios of the frame parser's unit tests, stated over the model:
 *  each lemma follows one test of parser_test.py, either on the test's own
 *  bytes or for every whole frame `f` that decodes as `fr` (by
 *  `EncodedWholeFrame`, every frame a sender builds is one). `ParseStep` is
 *  `parse` as written; where it departs from `IntendedParseStep` for some
 *  frames, a lemma states the intended outcome for every frame and the
 *  outcome as written for the frames on which the two agree.
 *******************************************************************************/

module ParserTest {
  import opened RctTypes
  import opened RctParser

  /** A parser as the constructor leaves it. */
  function Start(): ParserState {
    ParserState(0, true, [])
  }

  /** Empty leading or trailing bytes change no buffer. */
  lemma Unpadded(x: seq<byte>, y: seq<byte>)
    ensures [] + x + y == x + y && x + y + [] == x + y && x + [] == x
  {
  }

  /** A frame that needs no escaping holds no escape token at all, and its last byte is not one. */
  lemma PlainFrameHasNoEscapeToken(f: seq<byte>)
    requires |f| >= 2 && f[0] == StartToken && NeedsNoEscaping(f)
    ensures forall k :: 0 <= k < |f| ==> f[k] != EscapeToken
    ensures PassedOver(f, |f|)
  {
    assert !IsReserved(f[|f| - 1]);
  }

  /** Bytes without a start token: nothing is found, the frame is not complete, and the cursor moves to the end. */
  lemma GarbageData(proto: Rctclient, ignoreCrc: bool)
    ensures ParseStep(proto, ignoreCrc, Start(), [0x00, 0x00, 0xFF, 0xFF, 0x01]) == (NoFrame, ParserState(5, false, []))
  {
    ParseWithoutStartToken(proto, ignoreCrc, Start(), [0x00, 0x00, 0xFF, 0xFF, 0x01]);
  }

  /** Leading zero bytes are passed over. */
  lemma LeadingBytes(proto: Rctclient, ignoreCrc: bool, f: seq<byte>, fr: ResponseFrame)
    requires WholeFrame(proto, f, fr)
    ensures var (r, st') := IntendedParseStep(proto, ignoreCrc, Start(), [0x00, 0x00, 0x00, 0x00] + WireFrame(f));
      r == Frame(fr) && st'.completeFrame && st'.currentPos == 4 + |WireFrame(f)|
    ensures FindEscapedByte(f) == -1 ==>
      var (r, st') := ParseStep(proto, ignoreCrc, Start(), [0x00, 0x00, 0x00, 0x00] + WireFrame(f));
      r == Frame(fr) && st'.completeFrame
  {
    var lead: seq<byte> := [0x00, 0x00, 0x00, 0x00];
    assert PassedOver(lead, 0) && PassedOverOnWire(lead, 0);
    FrameAfter(proto, ignoreCrc, lead, f, fr);
  }

  /** The frame `f` after bytes `lead` that the search passes over, from a fresh parser. */
  lemma FrameAfter(proto: Rctclient, ignoreCrc: bool, lead: seq<byte>, f: seq<byte>, fr: ResponseFrame)
    requires WholeFrame(proto, f, fr) && PassedOverOnWire(lead, 0)
    ensures var (r, st') := IntendedParseStep(proto, ignoreCrc, Start(), lead + WireFrame(f));
      r == Frame(fr) && st'.completeFrame && st'.currentPos == |lead| + |WireFrame(f)|
    ensures PassedOver(lead, 0) && FindEscapedByte(f) == -1 ==>
      var (r, st') := ParseStep(proto, ignoreCrc, Start(), lead + WireFrame(f));
      r == Frame(fr) && st'.completeFrame
  {
    Unpadded(lead, WireFrame(f));
    IntendedWholeFrame(proto, ignoreCrc, Start(), lead, f, fr, []);
    if PassedOver(lead, 0) && FindEscapedByte(f) == -1 {
      assert f + Unescape([]) == f;
      ParseWholeFrame(proto, ignoreCrc, Start(), lead, f, fr, []);
    }
  }

  /** A start token with an escape token in front of it among the leading bytes is not taken for a frame start. */
  lemma LeadingBytesWithEscapedStartToken(proto: Rctclient, ignoreCrc: bool, f: seq<byte>, fr: ResponseFrame)
    requires WholeFrame(proto, f, fr)
    ensures var (r, st') := IntendedParseStep(proto, ignoreCrc, Start(), [0x00, 0x2D, 0x2B, 0x00] + WireFrame(f));
      r == Frame(fr) && st'.completeFrame && st'.currentPos == 4 + |WireFrame(f)|
    ensures FindEscapedByte(f) == -1 ==>
      var (r, st') := ParseStep(proto, ignoreCrc, Start(), [0x00, 0x2D, 0x2B, 0x00] + WireFrame(f));
      r == Frame(fr) && st'.completeFrame
  {
    var lead: seq<byte> := [0x00, 0x2D, 0x2B, 0x00];
    assert PassedOver(lead, 0);
    assert EscapeRun(lead, 2) == 1 && EscapeRun(lead, 4) == 0;
    assert PassedOverOnWire(lead, 0);
    FrameAfter(proto, ignoreCrc, lead, f, fr);
  }

  /** Two frames in one buffer: the first call reports the first, the second call the second. */
  lemma TwoFrames(proto: Rctclient, ignoreCrc: bool, f1: seq<byte>, fr1: ResponseFrame, f2: seq<byte>, fr2: ResponseFrame)
    requires WholeFrame(proto, f1, fr1) && NeedsNoEscaping(f1)
    requires WholeFrame(proto, f2, fr2) && NeedsNoEscaping(f2)
    ensures ParseStep(proto, ignoreCrc, Start(), f1 + f2) == (Frame(fr1), ParserState(|f1|, true, []))
    ensures ParseStep(proto, ignoreCrc, ParserState(|f1|, true, []), f1 + f2) == (Frame(fr2), ParserState(|f1| + |f2|, true, []))
  {
    FirstOfTwo(proto, ignoreCrc, f1, fr1, f2, fr2);
    SecondOfTwo(proto, ignoreCrc, f1, fr1, f2, fr2);
  }

  lemma FirstOfTwo(proto: Rctclient, ignoreCrc: bool, f1: seq<byte>, fr1: ResponseFrame, f2: seq<byte>, fr2: ResponseFrame)
    requires WholeFrame(proto, f1, fr1) && NeedsNoEscaping(f1)
    requires WholeFrame(proto, f2, fr2) && NeedsNoEscaping(f2)
    ensures ParseStep(proto, ignoreCrc, Start(), f1 + f2) == (Frame(fr1), ParserState(|f1|, true, []))
  {
    PlainFrameHasNoEscapeToken(f2);
    Unpadded(f1, f2);
    assert PassedOver([], 0);
    PlainFrameAt(proto, ignoreCrc, Start(), [], f1, fr1, f2, f1 + f2, 0, |f1| - FrameLengthCrc16,
                 ParserState(|f1|, true, []));
  }

  lemma SecondOfTwo(proto: Rctclient, ignoreCrc: bool, f1: seq<byte>, fr1: ResponseFrame, f2: seq<byte>, fr2: ResponseFrame)
    requires WholeFrame(proto, f1, fr1) && NeedsNoEscaping(f1)
    requires WholeFrame(proto, f2, fr2) && NeedsNoEscaping(f2)
    ensures ParseStep(proto, ignoreCrc, ParserState(|f1|, true, []), f1 + f2) == (Frame(fr2), ParserState(|f1| + |f2|, true, []))
  {
    PlainFrameHasNoEscapeToken(f1);
    Unpadded(f1, f2);
    PlainFrameAt(proto, ignoreCrc, ParserState(|f1|, true, []), f1, f2, fr2, [], f1 + f2, |f1|, |f2| - FrameLengthCrc16,
                 ParserState(|f1| + |f2|, true, []));
  }

  /**
   * The first part of a frame: nothing is reported and the frame is not
   * complete; once the rest has arrived, the next call reports the frame.
   */
  lemma IncompleteFrame(proto: Rctclient, ignoreCrc: bool, f: seq<byte>, fr: ResponseFrame, mid: nat)
    requires WholeFrame(proto, f, fr) && NeedsNoEscaping(f) && 0 < mid < |f|
    ensures ParseStep(proto, ignoreCrc, Start(), f[..mid]) == (NoFrame, ParserState(0, false, []))
    ensures ParseStep(proto, ignoreCrc, ParserState(0, false, []), f) == (Frame(fr), ParserState(|f|, true, []))
  {
    IncompletePart(proto, f, fr, mid);
    ParseIncomplete(proto, ignoreCrc, Start(), f[..mid]);
    ResumeIsFresh(proto, ignoreCrc, Start(), f[..mid], f);
    WholePlainFrameAlone(proto, ignoreCrc, f, fr);
  }

  lemma WholePlainFrameAlone(proto: Rctclient, ignoreCrc: bool, f: seq<byte>, fr: ResponseFrame)
    requires WholeFrame(proto, f, fr) && NeedsNoEscaping(f)
    ensures ParseStep(proto, ignoreCrc, Start(), f) == (Frame(fr), ParserState(|f|, true, []))
  {
    Unpadded(f, []);
    assert PassedOver([], 0);
    PlainFrameAt(proto, ignoreCrc, Start(), [], f, fr, [], f, 0, |f| - FrameLengthCrc16, ParserState(|f|, true, []));
  }

  lemma IncompletePart(proto: Rctclient, f: seq<byte>, fr: ResponseFrame, mid: nat)
    requires WholeFrame(proto, f, fr) && NeedsNoEscaping(f) && 0 < mid < |f|
    ensures FindStart(f[..mid], 0) == 0 && Decode(proto, UnescapeAsWritten(f[..mid][0..])).Incomplete?
  {
    var part := f[..mid];
    PlainFrameHasNoEscapeToken(f);
    assert part[0] == StartToken && (1 == |part| || part[1] != StartToken);
    FindStartAfterGarbage(part, 0, 0);
    assert part[0..] == part;
    assert forall k :: 0 <= k < |part| ==> part[k] != EscapeToken;
    NoEscapeTokenNoPair(part);
    WholeFramePrefix(proto, f, fr, mid);
  }

  /**
   * The first part of any frame on the wire, cut anywhere, even right after
   * an escape token: the intended parse reports nothing and waits; once the
   * rest has arrived, the next call reports the frame and stops at its end.
   */
  lemma IncompleteWireFrame(proto: Rctclient, ignoreCrc: bool, f: seq<byte>, fr: ResponseFrame, mid: nat)
    requires WholeFrame(proto, f, fr) && 0 < mid < |WireFrame(f)|
    ensures IntendedParseStep(proto, ignoreCrc, Start(), WireFrame(f)[..mid]) == (NoFrame, ParserState(0, false, []))
    ensures var (r, st') := IntendedParseStep(proto, ignoreCrc, ParserState(0, false, []), WireFrame(f));
      r == Frame(fr) && st'.completeFrame && st'.currentPos == |WireFrame(f)|
  {
    assert PassedOverOnWire([], 0);
    assert [] + WireFrame(f)[..mid] == WireFrame(f)[..mid];
    IntendedWirePrefix(proto, ignoreCrc, Start(), [], f, fr, mid);
    assert [] + WireFrame(f) + [] == WireFrame(f);
    IntendedWholeFrame(proto, ignoreCrc, ParserState(0, false, []), [], f, fr, []);
  }

  /** After a frame, a run of start tokens that ends the buffer (an end-of-block marker) is no frame. */
  lemma EndOfBlock(proto: Rctclient, ignoreCrc: bool, f: seq<byte>, fr: ResponseFrame)
    requires WholeFrame(proto, f, fr) && NeedsNoEscaping(f)
    ensures ParseStep(proto, ignoreCrc, Start(), f + [0x2B, 0x2B, 0x2B]) == (Frame(fr), ParserState(|f|, true, []))
    ensures ParseStep(proto, ignoreCrc, ParserState(|f|, true, []), f + [0x2B, 0x2B, 0x2B])
      == (NoFrame, ParserState(|f| + 3, false, []))
  {
    var tail: seq<byte> := [0x2B, 0x2B, 0x2B];
    PlainFrameHasNoEscapeToken(f);
    Unpadded(f, tail);
    assert PassedOver([], 0);
    PlainFrameAt(proto, ignoreCrc, Start(), [], f, fr, tail, f + tail, 0, |f| - FrameLengthCrc16, ParserState(|f|, true, []));
    EndOfBlockAfter(f, tail);
    ParseStepNoStart(proto, ignoreCrc, ParserState(|f|, true, []), f + tail, ParserState(|f| + 3, false, []));
  }

  lemma EndOfBlockAfter(f: seq<byte>, tail: seq<byte>)
    requires |f| >= 1 && f[|f| - 1] != EscapeToken && tail == [0x2B, 0x2B, 0x2B]
    ensures FindStart(f + tail, |f|) == -1
  {
    var buf := f + tail;
    assert buf[|f| - 1] == f[|f| - 1];
    FindStartSkipsEndOfBlock(buf, |f|);
  }

  /**
   * After `rewinded`, with the unread bytes moved to the front of the buffer,
   * the next frame is read from index 0, whatever the parser had recorded.
   */
  lemma BufferRewind(proto: Rctclient, ignoreCrc: bool, st: ParserState, f: seq<byte>, fr: ResponseFrame, rest: seq<byte>)
    requires WholeFrame(proto, f, fr) && st.completeFrame
    ensures var (r, st') := IntendedParseStep(proto, ignoreCrc, st.(currentPos := 0), WireFrame(f) + rest);
      r == Frame(fr) && st'.completeFrame && st'.currentPos == |WireFrame(f)|
    ensures FindEscapedByte(f + Unescape(rest)) == -1 ==>
      var (r, st') := ParseStep(proto, ignoreCrc, st.(currentPos := 0), WireFrame(f) + rest);
      r == Frame(fr) && st'.completeFrame
  {
    assert PassedOver([], 0) && PassedOverOnWire([], 0);
    Unpadded(WireFrame(f), rest);
    IntendedWholeFrame(proto, ignoreCrc, st.(currentPos := 0), [], f, fr, rest);
    if FindEscapedByte(f + Unescape(rest)) == -1 {
      ParseWholeFrame(proto, ignoreCrc, st.(currentPos := 0), [], f, fr, rest);
    }
  }

  /**
   * A first frame with a single escaped byte, followed by the first part of a
   * second frame: the first call reports the first frame and stops the cursor
   * at the second frame's first byte on the wire; once the rest of the second
   * frame has arrived, the next call reports it. So the intended parse does
   * for every second frame, and the code as written for one that needs no
   * escaping after a first frame whose last byte is not a dash
   * (`EscapedDashHidesNextFrame` shows what happens after one that is).
   */
  lemma IncompleteSecondFrame(proto: Rctclient, ignoreCrc: bool, f: seq<byte>, fr: ResponseFrame, j: nat,
                              g: seq<byte>, gr: ResponseFrame, mid: nat)
    requires WholeFrame(proto, f, fr) && 1 <= j < |f| && IsReserved(f[j])
    requires forall k :: 1 <= k < |f| && k != j ==> !IsReserved(f[k])
    requires WholeFrame(proto, g, gr) && mid <= |WireFrame(g)|
    ensures var (r, st') := IntendedParseStep(proto, ignoreCrc, Start(), WireFrame(f) + WireFrame(g)[..mid]);
      && r == Frame(fr) && st'.completeFrame && st'.currentPos == |WireFrame(f)|
      && IntendedParseStep(proto, ignoreCrc, st', WireFrame(f) + WireFrame(g)).0 == Frame(gr)
    ensures NeedsNoEscaping(g) && f[|f| - 1] != EscapeToken ==>
      var (r, st') := ParseStep(proto, ignoreCrc, Start(), WireFrame(f) + WireFrame(g)[..mid]);
      && r == Frame(fr) && st'.completeFrame && st'.currentPos == |WireFrame(f)|
      && ParseStep(proto, ignoreCrc, st', WireFrame(f) + WireFrame(g)).0 == Frame(gr)
  {
    IntendedSecondFrame(proto, ignoreCrc, f, fr, g, gr, mid);
    if NeedsNoEscaping(g) && f[|f| - 1] != EscapeToken {
      AsWrittenSecondFrame(proto, ignoreCrc, f, fr, j, g, gr, mid);
    }
  }

  lemma AsWrittenSecondFrame(proto: Rctclient, ignoreCrc: bool, f: seq<byte>, fr: ResponseFrame, j: nat,
                             g: seq<byte>, gr: ResponseFrame, mid: nat)
    requires WholeFrame(proto, f, fr) && 1 <= j < |f| && IsReserved(f[j]) && f[|f| - 1] != EscapeToken
    requires forall k :: 1 <= k < |f| && k != j ==> !IsReserved(f[k])
    requires WholeFrame(proto, g, gr) && NeedsNoEscaping(g) && mid <= |WireFrame(g)|
    ensures var (r, st') := ParseStep(proto, ignoreCrc, Start(), WireFrame(f) + WireFrame(g)[..mid]);
      && r == Frame(fr) && st'.completeFrame && st'.currentPos == |WireFrame(f)|
      && ParseStep(proto, ignoreCrc, st', WireFrame(f) + WireFrame(g)).0 == Frame(gr)
  {
    var st' := ParseStep(proto, ignoreCrc, Start(), WireFrame(f) + WireFrame(g)[..mid]).1;
    PlainWire(g);
    OneReservedNoPair(f, j, g, mid);
    ParseEscapedFrame(proto, ignoreCrc, [], f, fr, WireFrame(g)[..mid], j);
    WireLengthOneReserved(f, j);
    SecondFrameAfterWire(proto, ignoreCrc, st', f, g, gr);
  }

  lemma IntendedSecondFrame(proto: Rctclient, ignoreCrc: bool, f: seq<byte>, fr: ResponseFrame,
                            g: seq<byte>, gr: ResponseFrame, mid: nat)
    requires WholeFrame(proto, f, fr)
    requires WholeFrame(proto, g, gr) && mid <= |WireFrame(g)|
    ensures var (r, st') := IntendedParseStep(proto, ignoreCrc, Start(), WireFrame(f) + WireFrame(g)[..mid]);
      && r == Frame(fr) && st'.completeFrame && st'.currentPos == |WireFrame(f)|
      && IntendedParseStep(proto, ignoreCrc, st', WireFrame(f) + WireFrame(g)).0 == Frame(gr)
  {
    assert PassedOverOnWire([], 0);
    WireFrameEndsEven(f);
    Unpadded(WireFrame(f), WireFrame(g)[..mid]);
    IntendedWholeFrame(proto, ignoreCrc, Start(), [], f, fr, WireFrame(g)[..mid]);
    var st' := IntendedParseStep(proto, ignoreCrc, Start(), WireFrame(f) + WireFrame(g)[..mid]).1;
    Unpadded(WireFrame(f), WireFrame(g));
    IntendedWholeFrame(proto, ignoreCrc, st', WireFrame(f), g, gr, []);
  }

  /**
   * A frame whose last byte is a dash goes on the wire ending in the escaped
   * dash `2D 2D`. The search as written takes the next frame's start token,
   * right after it, for an escaped one: from the end of the first frame, a
   * second frame that needs no escaping is not found at all, and the cursor
   * is moved to the end of the buffer, past it.
   */
  lemma EscapedDashHidesNextFrame(proto: Rctclient, ignoreCrc: bool, f: seq<byte>, g: seq<byte>, gr: ResponseFrame)
    requires |f| >= 2 && f[0] == StartToken && f[|f| - 1] == EscapeToken
    requires WholeFrame(proto, g, gr) && NeedsNoEscaping(g)
    ensures var buf := WireFrame(f) + WireFrame(g);
      ParseStep(proto, ignoreCrc, ParserState(|WireFrame(f)|, true, []), buf) == (NoFrame, ParserState(|buf|, false, []))
  {
    var buf := WireFrame(f) + WireFrame(g);
    EscapedDashHidesStart(f, g);
    ParseStepNoStart(proto, ignoreCrc, ParserState(|WireFrame(f)|, true, []), buf, ParserState(|buf|, false, []));
  }

  /** The search as written, from the end of a frame that ends in a dash, finds no start token in a plain frame after it. */
  lemma EscapedDashHidesStart(f: seq<byte>, g: seq<byte>)
    requires |f| >= 2 && f[|f| - 1] == EscapeToken
    requires g != [] && g[0] == StartToken && NeedsNoEscaping(g)
    ensures FindStart(WireFrame(f) + WireFrame(g), |WireFrame(f)|) == -1
  {
    var w := WireFrame(f);
    var n := |w|;
    WireLast(f);
    PlainWire(g);
    var buf := w + g;
    assert buf[n - 1] == w[n - 1] && buf[n] == g[0];
    forall k | n + 1 <= k < |buf| ensures buf[k] != StartToken {
      assert buf[k] == g[k - n];
      assert !IsReserved(g[k - n]);
    }
    FindStartWithoutStartToken(buf, n + 1);
  }

  /**
   * The corrected search reads an even run of escape tokens as escaped
   * dashes: after any frame on the wire, the next whole frame is found and
   * reported, and the cursor stops at its end.
   */
  lemma IntendedFrameAfterEscapedDash(proto: Rctclient, ignoreCrc: bool, f: seq<byte>, g: seq<byte>, gr: ResponseFrame,
                                      rest: seq<byte>)
    requires f != [] && f[0] == StartToken && WholeFrame(proto, g, gr)
    ensures var (r, st') := IntendedParseStep(proto, ignoreCrc, ParserState(|WireFrame(f)|, true, []),
                                              WireFrame(f) + WireFrame(g) + rest);
      && r == Frame(gr) && st'.completeFrame && st'.currentPos == |WireFrame(f)| + |WireFrame(g)|
  {
    WireFrameEndsEven(f);
    IntendedWholeFrame(proto, ignoreCrc, ParserState(|WireFrame(f)|, true, []), WireFrame(f), g, gr, rest);
  }

  /** The buffer of `IncompleteSecondFrame`, with a second frame that needs no escaping, unescapes to no escape pair. */
  lemma OneReservedNoPair(f: seq<byte>, j: nat, g: seq<byte>, mid: nat)
    requires 1 <= j < |f| && f[0] == StartToken && IsReserved(f[j]) && f[|f| - 1] != EscapeToken
    requires forall k :: 1 <= k < |f| && k != j ==> !IsReserved(f[k])
    requires |g| >= 2 && g[0] == StartToken && NeedsNoEscaping(g) && mid <= |g|
    ensures WireFrame(g) == g
    ensures FindEscapedByte(f + Unescape(WireFrame(g)[..mid])) == -1
  {
    PlainWire(g);
    var r := g[..mid];
    PlainFrameHasNoEscapeToken(g);
    UnescapeWithoutEscapeTokens(r, 0);
    var s := f + r;
    forall k | 0 <= k < |s| - 1 ensures !IsEscapePair(s, k) {
      if k < |f| - 1 {
        assert s[k] == f[k] && s[k + 1] == f[k + 1];
      } else if k == |f| - 1 {
        assert s[k] == f[|f| - 1];
      } else {
        assert s[k] == r[k - |f|];
      }
    }
  }

  lemma SecondFrameAfterWire(proto: Rctclient, ignoreCrc: bool, st: ParserState, f: seq<byte>, g: seq<byte>, gr: ResponseFrame)
    requires |f| >= 2 && f[|f| - 1] != EscapeToken && WholeFrame(proto, g, gr) && NeedsNoEscaping(g)
    requires st.completeFrame && st.currentPos == |WireFrame(f)|
    ensures ParseStep(proto, ignoreCrc, st, WireFrame(f) + WireFrame(g)).0 == Frame(gr)
  {
    WireLast(f);
    PlainFrameHasNoEscapeToken(g);
    NoEscapeTokenNoPair(g);
    assert g + Unescape([]) == g;
    ParseWholeFrame(proto, ignoreCrc, st, WireFrame(f), g, gr, []);
    Unpadded(WireFrame(f), WireFrame(g));
  }

  /** The wire form of a frame ends in the frame's own last byte. */
  lemma WireLast(f: seq<byte>)
    requires |f| >= 2
    ensures WireFrame(f)[|WireFrame(f)| - 1] == f[|f| - 1]
  {
    var t := f[1..];
    var x := t[|t| - 1];
    assert t == t[..|t| - 1] + [x];
    EscapeConcat(t[..|t| - 1], [x]);
    assert Escape([x]) == (if IsReserved(x) then [EscapeToken, x] else [x]);
  }

  /** Escaping works byte by byte. */
  lemma {:induction false} EscapeConcat(a: seq<byte>, b: seq<byte>)
    ensures Escape(a + b) == Escape(a) + Escape(b)
    decreases |a|
  {
    if a != [] {
      var p: seq<byte> := if IsReserved(a[0]) then [EscapeToken, a[0]] else [a[0]];
      assert (a + b)[0] == a[0] && (a + b)[1..] == a[1..] + b;
      EscapeConcat(a[1..], b);
      assert Escape(a + b) == p + (Escape(a[1..]) + Escape(b));
      assert Escape(a) == p + Escape(a[1..]);
    } else {
      assert a + b == b;
    }
  }

  /** A frame with exactly one byte to protect grows by one escape token on the wire. */
  lemma WireLengthOneReserved(f: seq<byte>, j: nat)
    requires 1 <= j < |f| && IsReserved(f[j])
    requires forall k :: 1 <= k < |f| && k != j ==> !IsReserved(f[k])
    ensures |WireFrame(f)| == |f| + 1
  {
    var t := f[1..];
    var a, b := t[..j - 1], t[j..];
    assert t == a + [t[j - 1]] + b;
    EscapeConcat(a + [t[j - 1]], b);
    EscapeConcat(a, [t[j - 1]]);
    assert forall k :: 0 <= k < |a| ==> a[k] == f[k + 1];
    assert forall k :: 0 <= k < |b| ==> b[k] == f[k + j + 1];
    EscapeWithoutReserved(a);
    EscapeWithoutReserved(b);
    assert Escape([t[j - 1]]) == [EscapeToken, t[j - 1]];
  }

  /** The rctclient facts the escaped-checksum test relies on: command 0x05 is a short, non-plant, supported command with this checksum. */
  predicate ResponseCommand(proto: Rctclient) {
    && proto.isCommand(0x05) && proto.extension != 0x05 && !proto.isPlant(0x05) && !proto.isLong(0x05)
    && proto.crc16([0x05, 0x06, 0x36, 0x23, 0xD8, 0x2A, 0x00, 0x02]) == 0xD02B
  }

  /**
   * A checksum whose second byte is the start token and is sent escaped: the
   * frame is reported with a matching checksum, the escape index is recorded,
   * and the cursor ends past the whole frame on the wire.
   */
  lemma EscapedCheckSum(proto: Rctclient, ignoreCrc: bool)
    requires ResponseCommand(proto)
    ensures ParseStep(proto, ignoreCrc, Start(), [0x2B, 0x05, 0x06, 0x36, 0x23, 0xD8, 0x2A, 0x00, 0x02, 0xD0, 0x2D, 0x2B])
      == (Frame(ResponseFrame(0x05, 0x3623D82A, 0xD02B, true, 0, 11, None, [0x00, 0x02])), ParserState(12, true, [10]))
  {
    var buf: seq<byte> := [0x2B, 0x05, 0x06, 0x36, 0x23, 0xD8, 0x2A, 0x00, 0x02, 0xD0, 0x2D, 0x2B];
    var f: seq<byte> := [0x2B, 0x05, 0x06, 0x36, 0x23, 0xD8, 0x2A, 0x00, 0x02, 0xD0, 0x2B];
    var fr := ResponseFrame(0x05, 0x3623D82A, 0xD02B, true, 0, 11, None, [0x00, 0x02]);
    EscapedCheckSumFacts(proto, buf, f, fr);
    FoundAfterOneEscape(proto, ignoreCrc, buf, f, fr);
  }

  lemma FoundAfterOneEscape(proto: Rctclient, ignoreCrc: bool, buf: seq<byte>, f: seq<byte>, fr: ResponseFrame)
    requires |buf| == 12 && FindStart(buf, 0) == 0 && buf[0..] == buf && Unescape(buf) == f && EscapePositions(buf, 0) == [10]
    requires Decode(proto, f) == Complete(fr, 0xD02B, 9) && fr.crcOk && FindEscapedByte(f) == -1
    ensures ParseStep(proto, ignoreCrc, Start(), buf) == (Frame(fr), ParserState(12, true, [10]))
  {
    ParseStepFound(proto, ignoreCrc, Start(), buf, 0, fr, 0xD02B, 9);
    assert CursorAfter(11, [10]) == 12;
  }

  /** The premises of `ParseStepFound` for the buffer of `EscapedCheckSum`. */
  lemma EscapedCheckSumFacts(proto: Rctclient, buf: seq<byte>, f: seq<byte>, fr: ResponseFrame)
    requires ResponseCommand(proto)
    requires buf == [0x2B, 0x05, 0x06, 0x36, 0x23, 0xD8, 0x2A, 0x00, 0x02, 0xD0, 0x2D, 0x2B]
    requires f == [0x2B, 0x05, 0x06, 0x36, 0x23, 0xD8, 0x2A, 0x00, 0x02, 0xD0, 0x2B]
    requires fr == ResponseFrame(0x05, 0x3623D82A, 0xD02B, true, 0, 11, None, [0x00, 0x02])
    ensures FindStart(buf, 0) == 0 && buf[0..] == buf && Unescape(buf) == f && EscapePositions(buf, 0) == [10]
    ensures Decode(proto, f) == Complete(fr, 0xD02B, 9) && FindEscapedByte(f) == -1
  {
    FindStartAfterGarbage(buf, 0, 0);
    EscapedCheckSumUnescapes(buf, f);
    EscapedCheckSumDecodes(proto, f, fr);
    LastEscapeNoPair(f);
  }

  lemma EscapedCheckSumUnescapes(buf: seq<byte>, f: seq<byte>)
    requires buf == [0x2B, 0x05, 0x06, 0x36, 0x23, 0xD8, 0x2A, 0x00, 0x02, 0xD0, 0x2D, 0x2B]
    requires f == [0x2B, 0x05, 0x06, 0x36, 0x23, 0xD8, 0x2A, 0x00, 0x02, 0xD0, 0x2B]
    ensures Unescape(buf) == f && EscapePositions(buf, 0) == [10]
  {
    var p := buf[..10];
    assert forall k :: 0 <= k < |p| ==> !IsEscapePair(p + buf[10..], k);
    assert p + buf[10..] == buf;
    UnescapePlainPrefix(p, buf[10..], 0);
    assert Unescape(buf[10..]) == [0x2B];
    assert f == p + [0x2B];
    assert forall k :: 0 <= k < |p| ==> p[k] != EscapeToken;
    EscapePositionsAfterPlain(p, buf[10..], 0);
    assert EscapePositions(buf[10..], 10) == [10];
  }

  lemma EscapedCheckSumDecodes(proto: Rctclient, f: seq<byte>, fr: ResponseFrame)
    requires ResponseCommand(proto)
    requires f == [0x2B, 0x05, 0x06, 0x36, 0x23, 0xD8, 0x2A, 0x00, 0x02, 0xD0, 0x2B]
    requires fr == ResponseFrame(0x05, 0x3623D82A, 0xD02B, true, 0, 11, None, [0x00, 0x02])
    ensures Decode(proto, f) == Complete(fr, 0xD02B, 9)
  {
    assert HeaderLength(proto, 0x05) == 7 && OidIndex(proto, 0x05) == 3;
    assert DataLength(proto, 0x05, f) == 6;
    BigEndian4(f[3..7]);
    BigEndian2(f[9..11]);
    assert f[1..9] == [0x05, 0x06, 0x36, 0x23, 0xD8, 0x2A, 0x00, 0x02];
    assert f[7..9] == [0x00, 0x02];
  }

  /**
   * An escape index outlives a call that finds no start token. The buffer of
   * `EscapedCheckSum` leaves the index 10; parsing the same buffer again finds
   * nothing and keeps it, since the reset at the top of `parse` clears the
   * indexes only when the cursor is short of the buffer's end; once a frame
   * `f` and any bytes `g` have arrived behind it, that stale index moves the
   * cursor one past the end of `f`, over the first byte of `g`. The intended
   * call stops at the end of `f`.
   */
  lemma StaleEscapeIndex(proto: Rctclient, ignoreCrc: bool, f: seq<byte>, fr: ResponseFrame, g: seq<byte>)
    requires ResponseCommand(proto) && WholeFrame(proto, f, fr) && NeedsNoEscaping(f)
    requires forall k :: 0 <= k < |g| ==> g[k] != EscapeToken
    ensures var b: seq<byte> := [0x2B, 0x05, 0x06, 0x36, 0x23, 0xD8, 0x2A, 0x00, 0x02, 0xD0, 0x2D, 0x2B];
      && ParseStep(proto, ignoreCrc, Start(), b).1 == ParserState(12, true, [10])
      && ParseStep(proto, ignoreCrc, ParserState(12, true, [10]), b) == (NoFrame, ParserState(12, false, [10]))
      && ParseStep(proto, ignoreCrc, ParserState(12, false, [10]), b + f + g)
         == (Frame(fr), ParserState(12 + |f| + 1, true, [10]))
      && var (r, st') := IntendedParseStep(proto, ignoreCrc, ParserState(12, false, [10]), b + f + g);
         r == Frame(fr) && st'.currentPos == 12 + |f|
  {
    var b: seq<byte> := [0x2B, 0x05, 0x06, 0x36, 0x23, 0xD8, 0x2A, 0x00, 0x02, 0xD0, 0x2D, 0x2B];
    EscapedCheckSum(proto, ignoreCrc);
    StaleAfterNoStart(proto, ignoreCrc, b);
    StaleBeforePlainFrame(proto, ignoreCrc, b, f, fr, g);
    StaleIntended(proto, ignoreCrc, b, f, fr, g);
  }

  lemma StaleAfterNoStart(proto: Rctclient, ignoreCrc: bool, b: seq<byte>)
    requires |b| == 12
    ensures ParseStep(proto, ignoreCrc, ParserState(12, true, [10]), b) == (NoFrame, ParserState(12, false, [10]))
  {
    FindStartWithoutStartToken(b, 12);
    ParseStepNoStart(proto, ignoreCrc, ParserState(12, true, [10]), b, ParserState(12, false, [10]));
  }

  lemma StaleBeforePlainFrame(proto: Rctclient, ignoreCrc: bool, b: seq<byte>, f: seq<byte>, fr: ResponseFrame, g: seq<byte>)
    requires |b| == 12 && b[11] == StartToken
    requires WholeFrame(proto, f, fr) && NeedsNoEscaping(f)
    requires forall k :: 0 <= k < |g| ==> g[k] != EscapeToken
    ensures ParseStep(proto, ignoreCrc, ParserState(12, false, [10]), b + f + g)
         == (Frame(fr), ParserState(12 + |f| + 1, true, [10]))
  {
    assert PassedOver(b, 12);
    ParsePlainFrame(proto, ignoreCrc, ParserState(12, false, [10]), b, f, fr, g);
    assert CursorAfter(12 + |f|, [10]) == 12 + |f| + 1;
  }

  lemma StaleIntended(proto: Rctclient, ignoreCrc: bool, b: seq<byte>, f: seq<byte>, fr: ResponseFrame, g: seq<byte>)
    requires |b| == 12 && b[11] == StartToken
    requires WholeFrame(proto, f, fr) && NeedsNoEscaping(f)
    ensures var (r, st') := IntendedParseStep(proto, ignoreCrc, ParserState(12, false, [10]), b + f + g);
      r == Frame(fr) && st'.currentPos == 12 + |f|
  {
    assert EscapeRun(b, 12) == 0;
    assert PassedOverOnWire(b, 12);
    PlainWire(f);
    IntendedWholeFrame(proto, ignoreCrc, ParserState(12, false, [10]), b, f, fr, g);
  }

  /**
   * The frame of `EscapedCheckSum` with its last byte still to come, so that
   * the buffer ends in the escape token of the checksum's second byte. The
   * code as written keeps that escape token, takes it for the checksum's
   * second byte and raises a checksum mismatch; the intended parse waits.
   */
  lemma TruncatedEscapedCheckSum(proto: Rctclient)
    requires ResponseCommand(proto)
    ensures var part: seq<byte> := [0x2B, 0x05, 0x06, 0x36, 0x23, 0xD8, 0x2A, 0x00, 0x02, 0xD0, 0x2D];
      && ParseStep(proto, false, Start(), part) == (CrcMismatch(0xD02D, 0xD02B, 9), ParserState(0, true, []))
      && IntendedParseStep(proto, false, Start(), part) == (NoFrame, ParserState(0, false, []))
  {
    var part: seq<byte> := [0x2B, 0x05, 0x06, 0x36, 0x23, 0xD8, 0x2A, 0x00, 0x02, 0xD0, 0x2D];
    TruncatedAsWritten(proto, part);
    TruncatedIntended(proto, part);
  }

  lemma TruncatedAsWritten(proto: Rctclient, part: seq<byte>)
    requires ResponseCommand(proto)
    requires part == [0x2B, 0x05, 0x06, 0x36, 0x23, 0xD8, 0x2A, 0x00, 0x02, 0xD0, 0x2D]
    ensures ParseStep(proto, false, Start(), part) == (CrcMismatch(0xD02D, 0xD02B, 9), ParserState(0, true, []))
  {
    FindStartAfterGarbage(part, 0, 0);
    assert part[0..] == part;
    LastEscapeNoPair(part);
    assert UnescapeAsWritten(part) == part && AsWrittenPositions(part, 0) == [];
    TruncatedDecodes(proto, part);
    MismatchFromStart(proto, part, ResponseFrame(0x05, 0x3623D82A, 0xD02B, false, 0, 11, None, [0x00, 0x02]), 0xD02D, 9);
  }

  /** A buffer holding one frame from its first byte on, with no escape pair and a wrong checksum. */
  lemma MismatchFromStart(proto: Rctclient, buf: seq<byte>, fr: ResponseFrame, received: nat, crcAt: nat)
    requires buf != [] && FindStart(buf, 0) == 0 && FindEscapedByte(buf) == -1
    requires Decode(proto, buf) == Complete(fr, received, crcAt) && !fr.crcOk
    ensures ParseStep(proto, false, Start(), buf) == (CrcMismatch(received, fr.crc16, crcAt), ParserState(0, true, []))
  {
    assert buf[0..] == buf;
    AsWrittenNone(buf, 0);
    assert Start().(escapeIndexes := [] + []) == Start();
    assert ReadFrame(proto, false, Start(), 0, buf) == (CrcMismatch(received, fr.crc16, crcAt), Start());
  }

  lemma AsWrittenNone(s: seq<byte>, at: nat)
    requires FindEscapedByte(s) == -1
    ensures UnescapeAsWritten(s) == s && AsWrittenPositions(s, at) == []
  {
  }

  /** Bytes with an escape token at most at the end hold no escape pair. */
  lemma LastEscapeNoPair(s: seq<byte>)
    requires forall k :: 0 <= k < |s| - 1 ==> s[k] != EscapeToken
    ensures FindEscapedByte(s) == -1
  {
    forall k | 0 <= k < |s| - 1 ensures !IsEscapePair(s, k) {
      assert s[k] != EscapeToken;
    }
  }

  lemma TruncatedDecodes(proto: Rctclient, u: seq<byte>)
    requires ResponseCommand(proto)
    requires u == [0x2B, 0x05, 0x06, 0x36, 0x23, 0xD8, 0x2A, 0x00, 0x02, 0xD0, 0x2D]
    ensures Decode(proto, u) == Complete(ResponseFrame(0x05, 0x3623D82A, 0xD02B, false, 0, 11, None, [0x00, 0x02]), 0xD02D, 9)
  {
    assert HeaderLength(proto, 0x05) == 7 && OidIndex(proto, 0x05) == 3;
    assert DataLength(proto, 0x05, u) == 6;
    BigEndian4(u[3..7]);
    BigEndian2(u[9..11]);
    assert u[1..9] == [0x05, 0x06, 0x36, 0x23, 0xD8, 0x2A, 0x00, 0x02];
    assert u[7..9] == [0x00, 0x02];
  }

  lemma TruncatedIntended(proto: Rctclient, part: seq<byte>)
    requires ResponseCommand(proto)
    requires part == [0x2B, 0x05, 0x06, 0x36, 0x23, 0xD8, 0x2A, 0x00, 0x02, 0xD0, 0x2D]
    ensures IntendedParseStep(proto, false, Start(), part) == (NoFrame, ParserState(0, false, []))
  {
    var f: seq<byte> := [0x2B, 0x05, 0x06, 0x36, 0x23, 0xD8, 0x2A, 0x00, 0x02, 0xD0, 0x2B];
    var fr := ResponseFrame(0x05, 0x3623D82A, 0xD02B, true, 0, 11, None, [0x00, 0x02]);
    TruncatedPieces(proto, part, f, fr);
    IntendedWirePrefix(proto, false, Start(), [], f, fr, 11);
  }

  /** The cut buffer is eleven bytes of the wire form of the frame of `EscapedCheckSum`. */
  lemma TruncatedPieces(proto: Rctclient, part: seq<byte>, f: seq<byte>, fr: ResponseFrame)
    requires ResponseCommand(proto)
    requires part == [0x2B, 0x05, 0x06, 0x36, 0x23, 0xD8, 0x2A, 0x00, 0x02, 0xD0, 0x2D]
    requires f == [0x2B, 0x05, 0x06, 0x36, 0x23, 0xD8, 0x2A, 0x00, 0x02, 0xD0, 0x2B]
    requires fr == ResponseFrame(0x05, 0x3623D82A, 0xD02B, true, 0, 11, None, [0x00, 0x02])
    ensures WholeFrame(proto, f, fr) && 11 < |WireFrame(f)| && PassedOverOnWire([], 0)
    ensures [] + WireFrame(f)[..11] == part
  {
    EscapedCheckSumDecodes(proto, f, fr);
    EscapedCheckSumWire(f);
    assert WireFrame(f)[..11] == part;
    assert [] + part == part;
  }

  /** The frame of `EscapedCheckSum` goes on the wire as that test's buffer. */
  lemma EscapedCheckSumWire(f: seq<byte>)
    requires f == [0x2B, 0x05, 0x06, 0x36, 0x23, 0xD8, 0x2A, 0x00, 0x02, 0xD0, 0x2B]
    ensures WireFrame(f) == [0x2B, 0x05, 0x06, 0x36, 0x23, 0xD8, 0x2A, 0x00, 0x02, 0xD0, 0x2D, 0x2B]
  {
    var t := f[1..];
    var a := t[..9];
    assert t == a + [0x2B];
    EscapeConcat(a, [0x2B]);
    assert forall k :: 0 <= k < |a| ==> !IsReserved(a[k]);
    EscapeWithoutReserved(a);
    assert Escape([0x2B]) == [EscapeToken, 0x2B] + Escape([0x2B][1..]);
  }
}
