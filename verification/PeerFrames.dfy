/** Frame reassembly on a peer connection (packages/engine/src/peer-server.ts over protocol/peer-codec.ts), for calls
    that run one after another. What the server does with a frame is recorded as an event. */
module PeerFrames {
  import opened DeployWire
  import opened Sequences
  import opened Wrappers

  const HEADER_SIZE: nat := 8

  datatype Header = Header(size: nat, kind: Byte, dejavu: nat)
  datatype Frame = Frame(kind: Byte, dejavu: nat, payload: Bytes)
  datatype Event = Dispatch(frame: Frame) | Close

  function ReadHeader(buf: Bytes): Option<Header> {
    if |buf| < HEADER_SIZE then None
    else
      var size := ReadLE(buf[0..3]);
      Some(Header(if size == 0 then 0x7fff_ffff else size, buf[3], ReadLE(buf[4..8])))
  }

  predicate Malformed(buf: Bytes) {
    var header := ReadHeader(buf);
    header.Some? && (header.value.size < HEADER_SIZE || header.value.size > 0xff_ffff)
  }

  /** The front of the buffer is a whole frame. */
  predicate Ready(buf: Bytes) {
    var header := ReadHeader(buf);
    header.Some? && HEADER_SIZE <= header.value.size <= 0xff_ffff && header.value.size <= |buf|
  }

  function Size(buf: Bytes): (n: nat)
    requires Ready(buf)
    ensures HEADER_SIZE <= n <= |buf|
  {
    ReadHeader(buf).value.size
  }

  function Front(buf: Bytes): Frame
    requires Ready(buf)
  {
    var header := ReadHeader(buf).value;
    Frame(header.kind, header.dejavu, buf[HEADER_SIZE..header.size])
  }

  // ---------- one call ----------

  datatype Outcome = Outcome(events: seq<Event>, rest: Bytes) {
    function After(earlier: seq<Event>): Outcome {
      Outcome(earlier + events, rest)
    }
  }

  /** What one call makes of a buffer. */
  function Scan(buf: Bytes): Outcome
    decreases |buf|
  {
    if Malformed(buf) then Outcome([Close], [])
    else if Ready(buf) then Scan(buf[Size(buf)..]).After([Dispatch(Front(buf))])
    else Outcome([], buf)
  }

  lemma AfterAfter(outcome: Outcome, first: seq<Event>, second: seq<Event>)
    ensures outcome.After(second).After(first) == outcome.After(first + second)
  {
    Assoc(first, second, outcome.events);
  }

  class Connection {
    var buf: Bytes
    /** Frames handed to a route and closes of the socket, oldest first. */
    var events: seq<Event>

    constructor ()
      ensures buf == [] && events == []
    {
      buf, events := [], [];
    }

    /** Everything this connection would hold once the buffer is scanned. */
    ghost function Pending(left: Bytes): Outcome
      reads this
    {
      Scan(left).After(events)
    }

    method OnData(chunk: Bytes)
      modifies this
      ensures Outcome(events, buf) == Scan(old(buf) + chunk).After(old(events))
    {
      var left := buf + chunk;
      ghost var goal := Scan(left).After(events);
      while true
        invariant Pending(left) == goal
        decreases |left|
      {
        var header := ReadHeader(left);
        if header.None? {
          break;
        }
        if header.value.size < HEADER_SIZE || header.value.size > 0xff_ffff {
          Drained(events + [Close]);
          events, left := events + [Close], [];
          break;
        }
        if |left| < header.value.size {
          break;
        }
        var payload := left[HEADER_SIZE..header.value.size];
        var event := Dispatch(Frame(header.value.kind, header.value.dejavu, payload));
        AfterAfter(Scan(left[header.value.size..]), events, [event]);
        events, left := events + [event], left[header.value.size..];
      }
      assert events + [] == events;
      buf := left;
    }
  }

  lemma Drained(events: seq<Event>)
    ensures Scan([]).After(events) == Outcome(events, [])
  {
    assert events + [] == events;
  }

  // ---------- the stream ----------

  /** The connection after one call for each chunk. */
  function Feed(chunks: seq<Bytes>): Outcome {
    if chunks == [] then Outcome([], [])
    else
      var before := Feed(chunks[..|chunks| - 1]);
      Scan(before.rest + chunks[|chunks| - 1]).After(before.events)
  }

  /** A connection fed chunk by chunk is in the state Feed describes. */
  method Serve(chunks: seq<Bytes>) returns (connection: Connection)
    ensures fresh(connection) && Outcome(connection.events, connection.buf) == Feed(chunks)
  {
    connection := new Connection();
    for k := 0 to |chunks|
      invariant fresh(connection)
      invariant Outcome(connection.events, connection.buf) == Feed(chunks[..k])
    {
      assert chunks[..k + 1][..k] == chunks[..k];
      connection.OnData(chunks[k]);
    }
    assert chunks[..|chunks|] == chunks;
  }

  /** Everything up to and including the first close. */
  function ToClose(events: seq<Event>): seq<Event> {
    if events == [] then []
    else if events[0] == Close then [Close]
    else [events[0]] + ToClose(events[1..])
  }

  lemma ReadyPrefix(x: Bytes, y: Bytes)
    ensures Malformed(x) ==> Malformed(x + y)
    ensures Ready(x) ==> Ready(x + y) && Front(x + y) == Front(x) && (x + y)[Size(x + y)..] == x[Size(x)..] + y
    ensures Ready(x) ==> !Malformed(x + y)
  {
    if |x| >= HEADER_SIZE {
      assert (x + y)[0..3] == x[0..3] && (x + y)[4..8] == x[4..8];
      if Ready(x) {
        assert (x + y)[HEADER_SIZE..Size(x)] == x[HEADER_SIZE..Size(x)];
      }
    }
  }

  /** What more bytes make of an outcome: after a close they are dropped, otherwise scanning resumes at the leftover. */
  function Resume(outcome: Outcome, more: Bytes): Outcome {
    if Close in outcome.events then outcome else Scan(outcome.rest + more).After(outcome.events)
  }

  lemma ResumeAfter(outcome: Outcome, frame: Frame, more: Bytes)
    ensures Resume(outcome.After([Dispatch(frame)]), more) == Resume(outcome, more).After([Dispatch(frame)])
  {
  }

  /** Bytes that arrive later change nothing that was already dispatched. */
  lemma {:induction false} ScanSplits(x: Bytes, y: Bytes)
    ensures Scan(x + y) == Resume(Scan(x), y)
    decreases |x|
  {
    ReadyPrefix(x, y);
    if !Malformed(x) && Ready(x) {
      ScanSplits(x[Size(x)..], y);
      ResumeAfter(Scan(x[Size(x)..]), Front(x), y);
    }
  }

  lemma {:induction false} CloseEnds(buf: Bytes)
    ensures var events := Scan(buf).events; forall k :: 0 <= k < |events| - 1 ==> events[k] != Close
    ensures Close in Scan(buf).events ==> Scan(buf).rest == []
    decreases |buf|
  {
    if !Malformed(buf) && Ready(buf) {
      CloseEnds(buf[Size(buf)..]);
    }
  }

  lemma {:induction false} ToCloseStops(x: seq<Event>, y: seq<Event>)
    requires Close in x
    ensures ToClose(x + y) == ToClose(x)
  {
    if x[0] != Close {
      ToCloseStops(x[1..], y);
      assert (x + y)[1..] == x[1..] + y;
    }
  }

  lemma {:induction false} ToCloseGoesOn(x: seq<Event>, y: seq<Event>)
    requires Close !in x
    ensures ToClose(x + y) == x + ToClose(y)
  {
    if x == [] {
      assert x + y == y;
    } else {
      ToCloseGoesOn(x[1..], y);
      assert (x + y)[1..] == x[1..] + y;
      assert x == [x[0]] + x[1..];
      Assoc([x[0]], x[1..], ToClose(y));
    }
  }

  lemma {:induction false} ToCloseWhole(events: seq<Event>)
    requires forall k :: 0 <= k < |events| - 1 ==> events[k] != Close
    ensures ToClose(events) == events
  {
    if events != [] && events[0] != Close {
      ToCloseWhole(events[1..]);
    }
  }

  /** However the stream is cut, the same events come out in the same order up to the first close, and the close is at
      the same point; without a close the leftover is the same too. */
  lemma {:induction false} CutsDoNotMatter(chunks: seq<Bytes>)
    ensures ToClose(Feed(chunks).events) == Scan(Flatten(chunks)).events
    ensures Close in Feed(chunks).events <==> Close in Scan(Flatten(chunks)).events
    ensures Close !in Feed(chunks).events ==> Feed(chunks) == Scan(Flatten(chunks))
  {
    if chunks != [] {
      var (front, last) := (chunks[..|chunks| - 1], chunks[|chunks| - 1]);
      CutsDoNotMatter(front);
      ScanSplits(Flatten(front), last);
      var (before, now) := (Feed(front), Scan(Feed(front).rest + last));
      if Close in before.events {
        ToCloseStops(before.events, now.events);
      } else {
        ToCloseGoesOn(before.events, now.events);
      }
      CloseEnds(before.rest + last);
      ToCloseWhole(now.events);
    }
  }

  // ---------- frames and bytes ----------

  predicate Sendable(frame: Frame) {
    HEADER_SIZE + |frame.payload| <= 0xff_ffff && frame.dejavu < 0x1_0000_0000
  }

  /** The codec's frame: a header, then the payload. */
  function FrameBytes(frame: Frame): (b: Bytes)
    ensures |b| == HEADER_SIZE + |frame.payload|
  {
    WriteLE(HEADER_SIZE + |frame.payload|, 3) + [frame.kind] + WriteLE(frame.dejavu, 4) + frame.payload
  }

  function StreamOf(frames: seq<Frame>): Bytes {
    if frames == [] then [] else FrameBytes(frames[0]) + StreamOf(frames[1..])
  }

  function Dispatches(frames: seq<Frame>): (events: seq<Event>)
    ensures |events| == |frames| && Close !in events
  {
    if frames == [] then [] else [Dispatch(frames[0])] + Dispatches(frames[1..])
  }

  lemma FrameReads(frame: Frame, tail: Bytes)
    requires Sendable(frame)
    ensures var buf := FrameBytes(frame) + tail;
      !Malformed(buf) && Ready(buf) && Front(buf) == frame && buf[Size(buf)..] == tail
  {
    var (buf, size) := (FrameBytes(frame) + tail, HEADER_SIZE + |frame.payload|);
    assert Range(3) == 0x100_0000 && Range(4) == 0x1_0000_0000 by {
      assert Range(2) == 0x1_0000;
    }
    ReadBack(size, 3);
    ReadBack(frame.dejavu, 4);
    assert buf[0..3] == WriteLE(size, 3) && buf[4..8] == WriteLE(frame.dejavu, 4);
    assert buf[HEADER_SIZE..size] == frame.payload && buf[size..] == tail;
  }

  /** Sending undone: the frames written to a stream are dispatched, in order, before anything that follows them. */
  lemma {:induction false} FramesComeThrough(frames: seq<Frame>, tail: Bytes)
    requires forall k :: 0 <= k < |frames| ==> Sendable(frames[k])
    ensures Scan(StreamOf(frames) + tail) == Scan(tail).After(Dispatches(frames))
  {
    if frames == [] {
      assert StreamOf(frames) + tail == tail;
      assert Scan(tail).After([]) == Scan(tail);
    } else {
      var others := StreamOf(frames[1..]) + tail;
      FramesComeThrough(frames[1..], tail);
      FrameReads(frames[0], others);
      Assoc(FrameBytes(frames[0]), StreamOf(frames[1..]), tail);
      AfterAfter(Scan(tail), [Dispatch(frames[0])], Dispatches(frames[1..]));
    }
  }

  lemma FrontBytes(buf: Bytes)
    requires Ready(buf)
    ensures Sendable(Front(buf)) && FrameBytes(Front(buf)) + buf[Size(buf)..] == buf
  {
    var size := Size(buf);
    WriteBack(buf[0..3]);
    WriteBack(buf[4..8]);
    assert FrameBytes(Front(buf)) == buf[..size];
  }

  /** The bytes of a stream that no dispatched frame used. */
  function Undispatched(stream: Bytes): Bytes
    decreases |stream|
  {
    if !Malformed(stream) && Ready(stream) then Undispatched(stream[Size(stream)..]) else stream
  }

  /** Nothing is lost or made up: the dispatched frames, written out again, followed by what was not dispatched, are the
      stream. What was not dispatched is the leftover, or starts with a malformed header and ends in a close. */
  lemma {:induction false} StreamConserved(stream: Bytes) returns (frames: seq<Frame>)
    ensures StreamOf(frames) + Undispatched(stream) == stream
    ensures forall k :: 0 <= k < |frames| ==> Sendable(frames[k])
    ensures Scan(stream) ==
      if Malformed(Undispatched(stream)) then Outcome(Dispatches(frames) + [Close], [])
      else Outcome(Dispatches(frames), Undispatched(stream))
    decreases |stream|
  {
    if Ready(stream) {
      var next := stream[Size(stream)..];
      var others := StreamConserved(next);
      frames := [Front(stream)] + others;
      assert frames[1..] == others;
      FrontBytes(stream);
      Assoc(FrameBytes(Front(stream)), StreamOf(others), Undispatched(next));
      FramesComeThrough(frames, Undispatched(next));
      NothingReady(stream);
    } else {
      frames := [];
    }
  }

  lemma {:induction false} NothingReady(stream: Bytes)
    ensures !Ready(Undispatched(stream))
    decreases |stream|
  {
    if Ready(stream) {
      NothingReady(stream[Size(stream)..]);
    }
  }

  // ---------- after a close ----------

  /** From no point past the malformed header do the bytes still make an event. */
  ghost predicate Quiet(tail: Bytes) {
    forall p :: HEADER_SIZE <= p <= |tail| ==> Scan(tail[p..]).events == []
  }

  /** The whole record of events, past a close included, is the same for every cutting of the stream. */
  ghost predicate SameForEveryCut(stream: Bytes) {
    forall chunks: seq<Bytes> :: Flatten(chunks) == stream ==> Feed(chunks).events == Scan(stream).events
  }

  lemma {:induction false} UndispatchedGrows(x: Bytes, y: Bytes)
    requires Close in Scan(x).events
    ensures Undispatched(x + y) == Undispatched(x) + y && |Undispatched(x)| >= HEADER_SIZE
    decreases |x|
  {
    ReadyPrefix(x, y);
    if !Malformed(x) {
      UndispatchedGrows(x[Size(x)..], y);
    }
  }

  /** Without an event a scan keeps the whole buffer, and so it did for every shorter buffer. */
  lemma NoEventYet(x: Bytes, y: Bytes)
    requires Scan(x + y).events == []
    ensures Scan(x) == Outcome([], x)
  {
    ScanSplits(x, y);
  }

  /** The first close leaves the events of the whole stream behind and an empty buffer. */
  lemma ClosesNow(chunks: seq<Bytes>, more: Bytes)
    requires chunks != [] && Close !in Feed(chunks[..|chunks| - 1]).events && Close in Feed(chunks).events
    ensures Feed(chunks) == Outcome(Scan(Flatten(chunks) + more).events, [])
    ensures Undispatched(Flatten(chunks) + more) == Undispatched(Flatten(chunks)) + more && |Undispatched(Flatten(chunks))| >= HEADER_SIZE
  {
    var (front, last) := (chunks[..|chunks| - 1], chunks[|chunks| - 1]);
    CutsDoNotMatter(front);
    ScanSplits(Flatten(front), last);
    CloseEnds(Flatten(chunks));
    ScanSplits(Flatten(chunks), more);
    UndispatchedGrows(Flatten(chunks), more);
  }

  /** A call that makes no event keeps every byte. */
  lemma PilesUp(outcome: Outcome, chunk: Bytes, more: Bytes)
    requires Scan(outcome.rest + (chunk + more)).events == []
    ensures Scan(outcome.rest + chunk).After(outcome.events) == Outcome(outcome.events, outcome.rest + chunk)
  {
    Assoc(outcome.rest, chunk, more);
    NoEventYet(outcome.rest + chunk, more);
    assert outcome.events + [] == outcome.events;
  }

  /** After the close, quiet bytes only pile up. */
  lemma {:induction false} Settled(stream: Bytes, chunks: seq<Bytes>, more: Bytes) returns (p: nat)
    requires Flatten(chunks) + more == stream && Close in Feed(chunks).events && Quiet(Undispatched(stream))
    ensures Feed(chunks).events == Scan(stream).events
    ensures HEADER_SIZE <= p <= |Undispatched(stream)| && Feed(chunks).rest + more == Undispatched(stream)[p..]
  {
    var (front, last) := (chunks[..|chunks| - 1], chunks[|chunks| - 1]);
    if Close in Feed(front).events {
      Assoc(Flatten(front), last, more);
      Assoc(Feed(front).rest, last, more);
      p := Settled(stream, front, last + more);
      PilesUp(Feed(front), last, more);
      assert Feed(chunks) == Outcome(Feed(front).events, Feed(front).rest + last);
    } else {
      ClosesNow(chunks, more);
      p := |Undispatched(stream)| - |more|;
    }
  }

  lemma QuietIsEnough(stream: Bytes, chunks: seq<Bytes>)
    requires Flatten(chunks) == stream && (Close in Scan(stream).events ==> Quiet(Undispatched(stream)))
    ensures Feed(chunks).events == Scan(stream).events
  {
    CutsDoNotMatter(chunks);
    if Close in Feed(chunks).events {
      assert stream + [] == stream;
      var _ := Settled(stream, chunks, []);
    }
  }

  lemma SameFront(x: Bytes, y: Bytes)
    ensures Malformed(x + y) && |x| >= HEADER_SIZE ==> Malformed(x)
    ensures Ready(x + y) && Size(x + y) <= |x| ==> Ready(x) && Size(x) == Size(x + y)
  {
    if |x| >= HEADER_SIZE {
      assert (x + y)[0..3] == x[0..3] && (x + y)[4..8] == x[4..8];
    }
  }

  /** The malformed header alone closes the connection. */
  lemma {:induction false} ClosedByHeader(x: Bytes, y: Bytes)
    requires Close in Scan(x + y).events && |Undispatched(x + y)| >= HEADER_SIZE + |y|
    ensures Close in Scan(x).events
    decreases |x|
  {
    SameFront(x, y);
    if !Malformed(x + y) {
      UndispatchedShorter((x + y)[Size(x + y)..]);
      var next := x[Size(x)..];
      assert (x + y)[Size(x + y)..] == next + y;
      ClosedByHeader(next, y);
    }
  }

  lemma {:induction false} UndispatchedShorter(stream: Bytes)
    ensures |Undispatched(stream)| <= |stream|
    decreases |stream|
  {
    if !Malformed(stream) && Ready(stream) {
      UndispatchedShorter(stream[Size(stream)..]);
    }
  }

  lemma FeedOne(x: Bytes)
    ensures Flatten([x]) == x && Feed([x]) == Scan(x)
  {
    var chunks := [x];
    assert chunks[..0] == [] && [] + x == x && [] + Scan(x).events == Scan(x).events;
  }

  lemma TwoCalls(x: Bytes, y: Bytes)
    ensures Flatten([x, y]) == x + y && Feed([x, y]) == Scan(Scan(x).rest + y).After(Scan(x).events)
  {
    var chunks := [x, y];
    assert chunks[..1] == [x];
    FeedOne(x);
  }

  /** A cut just before the bytes that still make an event shows that event. */
  lemma NoiseShows(stream: Bytes, p: nat) returns (chunks: seq<Bytes>)
    requires Close in Scan(stream).events
    requires HEADER_SIZE <= p <= |Undispatched(stream)| && Scan(Undispatched(stream)[p..]).events != []
    ensures Flatten(chunks) == stream && Feed(chunks).events != Scan(stream).events
  {
    UndispatchedShorter(stream);
    var early := |stream| - |Undispatched(stream)| + p;
    var (head, noise) := (stream[..early], stream[early..]);
    assert head + noise == stream;
    ClosedByHeader(head, noise);
    UndispatchedGrows(head, noise);
    assert noise == Undispatched(stream)[p..];
    ScanSplits(head, noise);
    CloseEnds(head);
    TwoCalls(head, noise);
    chunks := [head, noise];
    assert [] + noise == noise;
    assert |Feed(chunks).events| > |Scan(stream).events|;
  }

  /** A closed connection keeps parsing whatever later calls deliver, so the full record depends on the cuts. It does not
      exactly when no event starts past the malformed header. */
  lemma FullRecordIff(stream: Bytes)
    ensures SameForEveryCut(stream) <==> (Close in Scan(stream).events ==> Quiet(Undispatched(stream)))
  {
    if Close in Scan(stream).events && !Quiet(Undispatched(stream)) {
      var p: nat :| HEADER_SIZE <= p <= |Undispatched(stream)| && Scan(Undispatched(stream)[p..]).events != [];
      var chunks := NoiseShows(stream, p);
    } else {
      forall chunks: seq<Bytes> | Flatten(chunks) == stream ensures Feed(chunks).events == Scan(stream).events {
        QuietIsEnough(stream, chunks);
      }
    }
  }

  /** The simplest such stream: a malformed header, then any frame. The frame is dropped when it arrives in the same
      call and dispatched when it arrives in the next. */
  lemma ServedAfterClose(bad: Bytes, frame: Frame)
    requires Malformed(bad) && Sendable(frame)
    ensures Feed([bad + FrameBytes(frame)]).events == [Close]
    ensures Feed([bad, FrameBytes(frame)]).events == [Close, Dispatch(frame)]
  {
    ReadyPrefix(bad, FrameBytes(frame));
    FeedOne(bad + FrameBytes(frame));
    TwoCalls(bad, FrameBytes(frame));
    FrameReads(frame, []);
    assert [] + FrameBytes(frame) == FrameBytes(frame) && FrameBytes(frame) + [] == FrameBytes(frame);
    assert Scan([]) == Outcome([], []);
    assert [Close] + [Dispatch(frame)] == [Close, Dispatch(frame)];
  }
}
