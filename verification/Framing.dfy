/** RFC 3430 framing: cutting a TCP byte stream into BER elements. */
module Framing {
  import opened Bytes
  import opened Ber

  const MAX_FRAME_SIZE := 0xFFFF

  datatype LengthOutcome = Parsed(contentLength: nat, fieldBytes: nat) | NeedMore | BadLength

  /** The length field at the front of `s`: at most four length octets. */
  function FrameLength(s: bytes): (r: LengthOutcome)
    ensures r.Parsed? ==> 1 <= r.fieldBytes <= 5 && r.fieldBytes <= |s|
  {
    if s == [] then NeedMore
    else if !High(s[0]) then Parsed(s[0], 1)
    else
      var count := s[0] - 0x80;
      if count == 0 || count > 4 then BadLength
      else if 1 + count > |s| then NeedMore
      else Parsed(Be(s[1..1 + count]), 1 + count)
  }

  /** `parse_ber_length`. */
  method ParseBerLength(buf: bytes) returns (r: LengthOutcome)
    ensures r == FrameLength(buf)
  {
    if |buf| == 0 {
      return NeedMore;
    }
    var firstByte, rest := buf[0], buf[1..];
    if !High(firstByte) {
      return Parsed(firstByte, 1);
    }
    var numOctets := firstByte - 0x80;
    if numOctets == 0 || numOctets > 4 {
      return BadLength;
    }
    if |rest| < numOctets {
      return NeedMore;
    }
    var lengthBytes := rest[..numOctets];
    assert lengthBytes == buf[1..1 + numOctets];
    var contentLength: nat := 0;
    var i := 0;
    while i < numOctets
      invariant 0 <= i <= numOctets
      invariant contentLength == Be(lengthBytes[..i])
    {
      assert lengthBytes[..i + 1][..i] == lengthBytes[..i];
      contentLength := contentLength * 256 + lengthBytes[i];
      i := i + 1;
    }
    assert lengthBytes[..numOctets] == lengthBytes;
    r := Parsed(contentLength, 1 + numOctets);
  }

  /** The sum, or `None` when it would not be a `usize`. */
  function TotalFrameSize(fieldBytes: nat, contentLength: nat): Option<nat>
  {
    if 1 + fieldBytes + contentLength < TWO_64 then Some(1 + fieldBytes + contentLength) else None
  }

  datatype FrameOutcome = Complete(frame: bytes) | Incomplete | Close

  /** What the front of a buffer holds. */
  function NextFrame(buf: bytes): (r: FrameOutcome)
    ensures r.Complete? ==> 2 <= |r.frame| <= MAX_FRAME_SIZE && r.frame <= buf
  {
    if buf == [] then Incomplete
    else if buf[0] != TAG_SEQUENCE then Close
    else match FrameLength(buf[1..])
         case NeedMore => Incomplete
         case BadLength => Close
         case Parsed(n, field) =>
           match TotalFrameSize(field, n)
           case None => Close
           case Some(total) =>
             if total > MAX_FRAME_SIZE then Close
             else if total > |buf| then Incomplete
             else Complete(buf[..total])
  }

  // ----- the connection buffer -----

  /** Frames cut from a buffer, what is left, and whether the stream must be closed. */
  datatype Cut = Cut(frames: seq<bytes>, left: bytes, closed: bool)

  function CutAll(buf: bytes): Cut
    decreases |buf|
  {
    match NextFrame(buf)
    case Incomplete => Cut([], buf, false)
    case Close => Cut([], buf, true)
    case Complete(frame) =>
      var more := CutAll(buf[|frame|..]);
      more.(frames := [frame] + more.frames)
  }

  class Connection {
    var readBuf: bytes
    /** Every frame handed to dispatch so far. */
    var dispatched: seq<bytes>

    constructor ()
      ensures readBuf == [] && dispatched == []
    {
      readBuf, dispatched := [], [];
    }

    /** `next_complete_frame`: on success the frame is drained from the buffer. */
    method NextCompleteFrame() returns (r: FrameOutcome)
      modifies `readBuf
      ensures r == NextFrame(old(readBuf))
      ensures readBuf == if r.Complete? then old(readBuf)[|r.frame|..] else old(readBuf)
    {
      if |readBuf| == 0 {
        return Incomplete;
      }
      if readBuf[0] != TAG_SEQUENCE {
        return Close;
      }
      var length := ParseBerLength(readBuf[1..]);
      match length {
        case NeedMore => return Incomplete;
        case BadLength => return Close;
        case Parsed(n, field) =>
          var total := TotalFrameSize(field, n);
          if total.None? || total.value > MAX_FRAME_SIZE {
            return Close;
          }
          if total.value > |readBuf| {
            return Incomplete;
          }
          var frame := readBuf[..total.value];
          readBuf := readBuf[total.value..];
          return Complete(frame);
      }
    }

    /** One read event: append the received octets, then dispatch every complete frame. */
    method Receive(received: bytes) returns (closed: bool)
      modifies this
      ensures var cut := CutAll(old(readBuf) + received);
              closed == cut.closed && readBuf == cut.left && dispatched == old(dispatched) + cut.frames
    {
      hide NextFrame, CutAll;
      readBuf := readBuf + received;
      ghost var whole := CutAll(readBuf);
      ghost var done: seq<bytes> := [];
      while true
        invariant dispatched == old(dispatched) + done
        invariant var cut := CutAll(readBuf);
                  whole.frames == done + cut.frames && whole.left == cut.left && whole.closed == cut.closed
        decreases |readBuf|
      {
        CutAllStep(readBuf);
        var outcome := NextCompleteFrame();
        match outcome {
          case Incomplete =>
            assert done + [] == done;
            return false;
          case Close =>
            assert done + [] == done;
            return true;
          case Complete(frame) =>
            dispatched := dispatched + [frame];
            ghost var more := CutAll(readBuf).frames;
            assert done + ([frame] + more) == (done + [frame]) + more;
            done := done + [frame];
        }
      }
    }
  }

  lemma CutAllStep(buf: bytes)
    ensures CutAll(buf) ==
            match NextFrame(buf)
            case Incomplete => Cut([], buf, false)
            case Close => Cut([], buf, true)
            case Complete(frame) =>
              var more := CutAll(buf[|frame|..]);
              Cut([frame] + more.frames, more.left, more.closed)
  {
    hide NextFrame;
  }

  // ----- chunking -----

  function Flatten(chunks: seq<bytes>): bytes
  {
    if chunks == [] then [] else chunks[0] + Flatten(chunks[1..])
  }

  /** Feeding reads one by one; nothing is read after the connection is closed. */
  function Feed(state: Cut, chunks: seq<bytes>): Cut
    decreases |chunks|
  {
    if state.closed || chunks == [] then state
    else
      var cut := CutAll(state.left + chunks[0]);
      Feed(Cut(state.frames + cut.frames, cut.left, cut.closed), chunks[1..])
  }

  lemma FrameLengthStable(s: bytes, more: bytes)
    requires !FrameLength(s).NeedMore?
    ensures FrameLength(s + more) == FrameLength(s)
  {
    if High(s[0]) && FrameLength(s).Parsed? {
      var count := s[0] - 0x80;
      assert (s + more)[1..1 + count] == s[1..1 + count];
    }
  }

  /** More octets never change a decision already made. */
  lemma NextFrameStable(buf: bytes, more: bytes)
    requires !NextFrame(buf).Incomplete?
    ensures NextFrame(buf + more) == NextFrame(buf)
  {
    if buf[0] == TAG_SEQUENCE {
      FrameLengthStable(buf[1..], more);
      assert (buf + more)[1..] == buf[1..] + more;
    }
  }

  /** Cutting, then appending and cutting again, is cutting once. */
  lemma {:induction false} CutAllAppend(buf: bytes, more: bytes)
    ensures var first := CutAll(buf);
            if first.closed then CutAll(buf + more).closed && CutAll(buf + more).frames == first.frames
            else var second := CutAll(first.left + more);
                 CutAll(buf + more) == second.(frames := first.frames + second.frames)
    decreases |buf|
  {
    hide NextFrame, CutAll;
    CutAllStep(buf);
    CutAllStep(buf + more);
    match NextFrame(buf) {
      case Incomplete =>
        var second := CutAll(buf + more);
        assert [] + second.frames == second.frames;
      case Close =>
        NextFrameStable(buf, more);
      case Complete(frame) =>
        NextFrameStable(buf, more);
        CutAllAppend(buf[|frame|..], more);
        assert (buf + more)[|frame|..] == buf[|frame|..] + more;
        var rest := CutAll(buf[|frame|..]);
        if !rest.closed {
          var second := CutAll(rest.left + more);
          assert [frame] + (rest.frames + second.frames) == ([frame] + rest.frames) + second.frames;
        }
    }
  }

  /** Frames and the decision to close do not depend on how the stream was split into reads. */
  lemma {:induction false} ChunkingIrrelevant(state: Cut, buf: bytes, chunks: seq<bytes>)
    requires state == CutAll(buf)
    ensures var fed, whole := Feed(state, chunks), CutAll(buf + Flatten(chunks));
            fed.frames == whole.frames && fed.closed == whole.closed && (!fed.closed ==> fed.left == whole.left)
    decreases |chunks|
  {
    hide CutAll;
    CutAllAppend(buf, Flatten(chunks));
    if chunks == [] {
      assert buf + Flatten(chunks) == buf;
    } else if !state.closed {
      var next := buf + chunks[0];
      CutAllAppend(buf, chunks[0]);
      assert next + Flatten(chunks[1..]) == buf + Flatten(chunks);
      ChunkingIrrelevant(CutAll(next), next, chunks[1..]);
    }
  }

  /** From an empty buffer: any split of a stream behaves like the unsplit stream. */
  lemma FramingIndependentOfChunking(chunks: seq<bytes>)
    ensures var fed, whole := Feed(Cut([], [], false), chunks), CutAll(Flatten(chunks));
            fed.frames == whole.frames && fed.closed == whole.closed && (!fed.closed ==> fed.left == whole.left)
  {
    ChunkingIrrelevant(CutAll([]), [], chunks);
    assert [] + Flatten(chunks) == Flatten(chunks);
  }

  /** While open nothing is lost, and less than a frame is kept. */
  lemma {:induction false} CutConserves(buf: bytes)
    ensures Flatten(CutAll(buf).frames) + CutAll(buf).left == buf
    ensures !CutAll(buf).closed ==> |CutAll(buf).left| < MAX_FRAME_SIZE
    decreases |buf|
  {
    hide NextFrame, CutAll;
    CutAllStep(buf);
    match NextFrame(buf) {
      case Complete(frame) =>
        var rest := buf[|frame|..];
        CutConserves(rest);
        var frames := CutAll(buf).frames;
        assert frames[1..] == CutAll(rest).frames;
        assert frame + rest == buf;
        assert (frame + Flatten(frames[1..])) + CutAll(rest).left == frame + (Flatten(frames[1..]) + CutAll(rest).left);
      case Incomplete => assert Flatten([]) + buf == buf; IncompleteIsShort(buf);
      case Close => assert Flatten([]) + buf == buf;
    }
  }

  lemma IncompleteIsShort(buf: bytes)
    requires NextFrame(buf).Incomplete?
    ensures |buf| < MAX_FRAME_SIZE
  {}

  /** Every dispatched frame is a frame by itself, and what is kept is why the cutting stopped. */
  lemma {:induction false} CutsAreFrames(buf: bytes)
    ensures forall frame :: frame in CutAll(buf).frames ==> NextFrame(frame) == Complete(frame)
    ensures NextFrame(CutAll(buf).left) == if CutAll(buf).closed then Close else Incomplete
    decreases |buf|
  {
    hide NextFrame, CutAll;
    CutAllStep(buf);
    if NextFrame(buf).Complete? {
      FrameAlone(buf);
      CutsAreFrames(buf[|NextFrame(buf).frame|..]);
    }
  }

  lemma FrameAlone(buf: bytes)
    requires NextFrame(buf).Complete?
    ensures NextFrame(NextFrame(buf).frame) == NextFrame(buf)
  {
    hide NextFrame;
    var frame := NextFrame(buf).frame;
    FramerByOctets(buf);
    FramerByOctets(frame);
    if 0x81 <= buf[1] <= 0x84 {
      var header := 2 + (buf[1] - 0x80);
      assert frame[2..header] == buf[2..header];
    }
    assert frame[..|frame|] == frame;
  }

  /**
    * The framer's decision in numbers: a SEQUENCE tag, a length in short form or in one to four octets
    * behind 0x81 to 0x84, at most 65535 octets in all; everything else closes the connection.
    */
  lemma FramerByOctets(buf: bytes)
    ensures buf == [] ==> NextFrame(buf) == Incomplete
    ensures buf != [] && buf[0] != 0x30 ==> NextFrame(buf) == Close
    ensures |buf| == 1 && buf[0] == 0x30 ==> NextFrame(buf) == Incomplete
    ensures |buf| > 1 && buf[0] == 0x30 && (buf[1] == 0x80 || buf[1] > 0x84) ==> NextFrame(buf) == Close
    ensures |buf| > 1 && buf[0] == 0x30 && buf[1] < 0x80 ==>
              NextFrame(buf) == if |buf| < 2 + buf[1] then Incomplete else Complete(buf[..2 + buf[1]])
    ensures |buf| > 1 && buf[0] == 0x30 && 0x81 <= buf[1] <= 0x84 ==>
              var header := 2 + (buf[1] - 0x80);
              NextFrame(buf) ==
              if |buf| < header then Incomplete
              else
                var total := header + Be(buf[2..header]);
                if total > 65535 then Close else if |buf| < total then Incomplete else Complete(buf[..total])
  {
    if |buf| > 1 && 0x81 <= buf[1] <= 0x84 && |buf| >= 2 + (buf[1] - 0x80) {
      var count := buf[1] - 0x80;
      assert buf[1..][1..1 + count] == buf[2..2 + count];
      BeBound(buf[2..2 + count]);
      Pow256Values();
    }
  }

  // ----- agreement with the element reader -----

  /**
    * An element the reader accepts is cut as one frame exactly when its length field has at most
    * four octets behind the first and the whole of it is at most 65535 octets.
    */
  lemma FrameIffElement(buf: bytes)
    requires Expect(buf, TAG_SEQUENCE).Ok?
    ensures var (value, rest) := Expect(buf, TAG_SEQUENCE).value;
            var size := |buf| - |rest|;
            (NextFrame(buf) == Complete(buf[..size]) <==> size - 1 - |value| <= 5 && size <= MAX_FRAME_SIZE) &&
            (!NextFrame(buf).Complete? ==> NextFrame(buf).Close?)
  {
    var (value, rest) := Expect(buf, TAG_SEQUENCE).value;
    var s := buf[1..];
    if High(s[0]) {
      BeBound(s[1..1 + s[0] - 0x80]);
      Pow256Values();
      Pow256Mono(s[0] - 0x80, 8);
    }
  }

  /** A length field of six octets is readable, yet the framer closes the connection over it. */
  lemma LongLengthFieldCloses(contents: bytes)
    requires |contents| < 128
    ensures var buf := [TAG_SEQUENCE, 0x85, 0, 0, 0, 0, |contents|] + contents;
            Expect(buf, TAG_SEQUENCE) == Ok((contents, [])) && NextFrame(buf) == Close
  {
    var field: bytes := [0x85, 0, 0, 0, 0, |contents|];
    var buf: bytes := [TAG_SEQUENCE, 0x85, 0, 0, 0, 0, |contents|] + contents;
    assert buf[1..] == field + contents;
    assert buf[1..][1..6] == Zeros(4) + [|contents|];
    BeDropZeros(buf[1..][1..6], 4);
    assert buf[1..][1..6][4..] == [|contents|];
    assert Be([|contents|]) == |contents| by { assert [|contents|][..0] == []; }
    assert buf[1..][6..] == contents && contents[..|contents|] == contents && contents[|contents|..] == [];
    assert ParseLength(buf[1..]) == Some((|contents|, contents));
  }

  lemma TailOfPrefix(s: bytes, n: nat)
    requires 1 <= n <= |s|
    ensures s[..n][1..] == s[1..][..n - 1]
  {}

  /** The reader finds the length the framer found, in any prefix that holds the length field. */
  lemma LengthInPrefix(s: bytes, n: nat)
    requires FrameLength(s).Parsed? && FrameLength(s).fieldBytes <= n <= |s|
    ensures var field := FrameLength(s).fieldBytes;
            ParseLength(s[..n]) == Some((FrameLength(s).contentLength, s[..n][field..]))
  {
    if High(s[0]) { assert s[..n][1..s[0] - 0x7F] == s[1..s[0] - 0x7F]; }
  }

  lemma WholeContents(frame: bytes, header: nat, n: nat)
    requires 1 <= header <= |frame| && n == |frame| - header && frame[0] == TAG_SEQUENCE
    requires ParseLength(frame[1..]) == Some((n, frame[1..][header - 1..]))
    ensures Expect(frame, TAG_SEQUENCE) == Ok((frame[header..], []))
  {
    hide ParseLength;
    var contents := frame[header..];
    assert frame[1..][header - 1..] == contents && contents[..n] == contents && contents[n..] == [];
  }

  /** Every frame is exactly one SEQUENCE element: the reader takes all of it and nothing trails. */
  lemma FrameIsOneElement(buf: bytes)
    requires NextFrame(buf).Complete?
    ensures var frame := NextFrame(buf).frame;
            var header := 1 + FrameLength(buf[1..]).fieldBytes;
            Expect(frame, TAG_SEQUENCE) == Ok((frame[header..], []))
  {
    var frame := NextFrame(buf).frame;
    var s := buf[1..];
    var header := 1 + FrameLength(s).fieldBytes;
    TailOfPrefix(buf, |frame|);
    LengthInPrefix(s, |frame| - 1);
    WholeContents(frame, header, |frame| - header);
  }

  /** Any element written by the agent and small enough is cut back out of the stream whole. */
  lemma WrittenElementIsFramed(contents: bytes, more: bytes)
    requires |Sequence(contents)| <= MAX_FRAME_SIZE
    ensures NextFrame(Sequence(contents) + more) == Complete(Sequence(contents))
  {
    var sent := Sequence(contents);
    ExpectOfTlv(TAG_SEQUENCE, contents, more);
    LengthSizeBound(|contents|);
    TlvSize(TAG_SEQUENCE, contents);
    FrameIffElement(sent + more);
    assert (sent + more)[..|sent|] == sent;
  }
}
