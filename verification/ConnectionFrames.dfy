/** Content-Length frames on the adapter-server connection: reading, writing, and a stream cut short. */
module ConnectionFrames {
  import opened Bytes
  import Decimal
  import opened Framing
  import opened FramingRoundTrip
  import opened Transport

  /** The two ends of the connection read frames with slightly different rules. */
  datatype End = Adapter | Server

  const LINE_ROOM: nat := 255
  const SERVER_MAX: nat := 0x40_0000

  function BodyLimit(end: End): nat {
    if end == Adapter then MAX_MESSAGE else SERVER_MAX
  }

  /** A line, newline included, is taken for a Content-Length line. */
  predicate GivesLength(line: bytes, end: End) {
    KeyAt(line, 0) && (end == Adapter ==> |CString(line)| > |KEY|)
  }

  /** The length announced so far, with this line read too. */
  function LengthAfter(line: bytes, end: End, length: Option<nat>): Option<nat> {
    if GivesLength(line, end) then (KeyFits(line, 0); Some(Strtoul(line, |KEY|, |line|))) else length
  }

  datatype Headers = Headers(length: Option<nat>, at: nat)

  /** Header lines from `a` on, up to a line starting with a line break or one that is not read whole. */
  function ReadHeaders(s: bytes, a: nat, end: End, length: Option<nat>): (r: Headers)
    requires a <= |s|
    ensures a <= r.at <= |s|
    decreases |s| - a
  {
    var e := LineEnd(s, a);
    if e - a >= LINE_ROOM then Headers(length, a + LINE_ROOM)
    else if e == |s| then Headers(length, e)
    else if s[a] == CR || s[a] == LF then Headers(length, e + 1)
    else
      var line := s[a..e + 1];
      ReadHeaders(s, e + 1, end, LengthAfter(line, end, length))
  }

  lemma KeyFits(s: bytes, a: nat)
    requires KeyAt(s, a)
    ensures a + |KEY| <= |s|
  {
    KeyByte(s, a, |KEY|, |KEY| - 1);
  }

  datatype Received = Received(body: bytes, next: nat)

  /** The frame at `a`, if there is a whole one of an accepted size. */
  function FrameAt(s: bytes, a: nat, end: End): (r: Option<Received>)
    requires a <= |s|
    ensures r.Some? ==> a < r.value.next <= |s|
  {
    var h := ReadHeaders(s, a, end, None);
    if h.length.Some? && 0 < h.length.value <= BodyLimit(end) && h.at + h.length.value <= |s| then
      Some(Received(s[h.at..h.at + h.length.value], h.at + h.length.value))
    else None
  }

  /** Every body read from `a` on, up to the first call that fails. */
  function Frames(s: bytes, a: nat, end: End): seq<bytes>
    requires a <= |s|
    decreases |s| - a
  {
    var r := FrameAt(s, a, end);
    if r.None? then [] else [r.value.body] + Frames(s, r.value.next, end)
  }

  // ---------------------------------------------------------------- reading

  lemma SliceAppend(s: bytes, a: nat, e: nat)
    requires a <= e < |s|
    ensures s[a..e + 1] == s[a..e] + [s[e]]
  {
  }

  method ReadByte(source: Source) returns (b: Option<byte>)
    requires source.Valid()
    modifies source`given, source`plan
    ensures source.Valid()
    ensures b == if old(source.given) < |source.stream| then Some(source.stream[old(source.given)]) else None
    ensures source.given == old(source.given) + if b.Some? then 1 else 0
  {
    ghost var a := source.given;
    var one := new byte[1];
    var ok := source.ReadExact(one, 1);
    if !ok {
      return None;
    }
    assert one[..1] == source.stream[a..a + 1];
    assert one[0] == one[..1][0] && source.stream[a..a + 1][0] == source.stream[a];
    b := Some(one[0]);
  }

  /** A line of at most 255 bytes, read one byte at a time. */
  method ReadLine(source: Source) returns (line: Option<bytes>)
    requires source.Valid()
    modifies source`given, source`plan
    ensures source.Valid()
    ensures var a := old(source.given); var e := LineEnd(source.stream, a);
            if e < |source.stream| && e - a < LINE_ROOM then
              line == Some(source.stream[a..e + 1]) && source.given == e + 1
            else
              line == None && source.given == if e - a >= LINE_ROOM then a + LINE_ROOM else e
  {
    ghost var a := source.given;
    var buffer := new byte[LINE_ROOM + 1];
    var n: nat := 0;
    while n < LINE_ROOM
      invariant source.Valid() && n <= LINE_ROOM && source.given == a + n
      invariant buffer[..n] == source.stream[a..a + n]
      invariant LineEnd(source.stream, a) == LineEnd(source.stream, a + n)
    {
      var b := ReadByte(source);
      if b.None? {
        return None;
      }
      buffer[n] := b.value;
      SliceAppend(source.stream, a, a + n);
      assert buffer[..n + 1] == buffer[..n] + [buffer[n]];
      n := n + 1;
      if b.value == LF {
        assert LineEnd(source.stream, a + n - 1) == a + n - 1;
        return Some(buffer[..n]);
      }
    }
    return None;
  }

  /** What the line read at `a`, up to `next`, does to the header block. */
  lemma HeadersStep(s: bytes, a: nat, line: Option<bytes>, next: nat, end: End, length: Option<nat>)
    requires a <= next <= |s|
    requires var e := LineEnd(s, a);
             if e < |s| && e - a < LINE_ROOM then line == Some(s[a..e + 1]) && next == e + 1
             else line == None && next == if e - a >= LINE_ROOM then a + LINE_ROOM else e
    ensures line.Some? ==> line.value != [] && a < next
    ensures line.None? || line.value[0] == CR || line.value[0] == LF ==>
              ReadHeaders(s, a, end, length) == Headers(length, next)
    ensures line.Some? && line.value[0] != CR && line.value[0] != LF ==>
              ReadHeaders(s, a, end, length) == ReadHeaders(s, next, end, LengthAfter(line.value, end, length))
  {
  }

  /** The header lines at the front of the connection. */
  method ReadLengthLines(source: Source, end: End) returns (length: Option<nat>)
    requires source.Valid()
    modifies source`given, source`plan
    ensures source.Valid()
    ensures ReadHeaders(source.stream, old(source.given), end, None) == Headers(length, source.given)
  {
    ghost var goal := ReadHeaders(source.stream, source.given, end, None);
    length := None;
    while true
      invariant source.Valid() && goal == ReadHeaders(source.stream, source.given, end, length)
      decreases |source.stream| - source.given
    {
      ghost var a := source.given;
      var line := ReadLine(source);
      HeadersStep(source.stream, a, line, source.given, end, length);
      if line.None? || line.value[0] == CR || line.value[0] == LF {
        return;
      }
      if GivesLength(line.value, end) {
        KeyFits(line.value, 0);
        length := Some(Strtoul(line.value, |KEY|, |line.value|));
      }
    }
  }

  /** The body behind the header block, into a buffer of its own. */
  method ReadBody(source: Source, n: nat) returns (body: Option<bytes>)
    requires source.Valid()
    modifies source`given, source`plan
    ensures source.Valid()
    ensures body.Some? <==> old(source.given) + n <= |source.stream|
    ensures body.Some? ==>
              source.given == old(source.given) + n && body.value == source.stream[old(source.given)..source.given]
  {
    var buffer := new byte[n + 1];
    var ok := source.ReadExact(buffer, n);
    if !ok {
      return None;
    }
    buffer[n] := NUL;
    return Some(buffer[..n]);
  }

  /** `dxr_conn_read_frame` and the server's `read_frame`. */
  method ReadFrame(source: Source, end: End) returns (body: Option<bytes>)
    requires source.Valid()
    modifies source`given, source`plan
    ensures source.Valid()
    ensures var r := FrameAt(source.stream, old(source.given), end);
            && (body.Some? <==> r.Some?)
            && (body.Some? ==> r.value == Received(body.value, source.given))
  {
    var length := ReadLengthLines(source, end);
    if length.None? || length.value == 0 || length.value > BodyLimit(end) {
      return None;
    }
    body := ReadBody(source, length.value);
  }

  /** Reads frames until one fails. */
  method ReadAllFrames(source: Source, end: End) returns (bodies: seq<bytes>)
    requires source.Valid()
    modifies source`given, source`plan
    ensures source.Valid()
    ensures bodies == Frames(source.stream, old(source.given), end)
  {
    ghost var goal := Frames(source.stream, source.given, end);
    bodies := [];
    while true
      invariant source.Valid() && goal == bodies + Frames(source.stream, source.given, end)
      decreases |source.stream| - source.given
    {
      ghost var left := Frames(source.stream, source.given, end);
      var body := ReadFrame(source, end);
      if body.None? {
        assert left == [];
        return;
      }
      OneMore(bodies, body.value, Frames(source.stream, source.given, end));
      bodies := bodies + [body.value];
    }
  }

  // ---------------------------------------------------------------- writing

  /** What comes of writing a frame, header first, to a live connection. */
  function SendsFrame(plan: seq<Outcome>, body: bytes, patience: Patience): (r: Sending)
    ensures r.count <= |Frame(body)|
  {
    var h := Sends(plan, |Header(|body|)|, patience);
    if h.count < |Header(|body|)| then h
    else
      var b := Sends(h.plan, |body|, patience);
      Sending(h.count + b.count, b.plan)
  }

  /** A frame's fate, from that of its header and its body. */
  lemma FrameWent(
      before: bytes, body: bytes, patience: Patience, first: seq<Outcome>, sent: bytes, plan: seq<Outcome>, ok: bool,
      h: Sending, middle: bytes)
    requires h == Sends(first, |Header(|body|)|, patience) && middle == before + Header(|body|)[..h.count]
    requires if h.count < |Header(|body|)| then !ok && sent == middle && plan == h.plan
             else Went(middle, body, Sends(h.plan, |body|, patience), sent, plan, ok)
    ensures Went(before, Frame(body), SendsFrame(first, body, patience), sent, plan, ok)
  {
    var header, w := Header(|body|), SendsFrame(first, body, patience);
    if h.count < |header| {
      assert Frame(body)[..h.count] == header[..h.count];
    } else {
      var b := Sends(h.plan, |body|, patience);
      assert header[..h.count] == header && Frame(body)[..w.count] == header + body[..b.count];
      assert before + Frame(body)[..w.count] == before + header + body[..b.count];
    }
  }

  /** Header first, then the body; used by both ends. */
  method WriteFrame(sink: Sink, body: bytes) returns (ok: bool)
    modifies sink
    ensures ok ==> sink.sent == old(sink.sent) + Frame(body) && !sink.dead
    ensures !ok ==> sink.dead && CutShort(old(sink.sent), Frame(body), sink.sent)
    ensures old(sink.dead) ==> !ok && sink.sent == old(sink.sent) && sink.plan == old(sink.plan)
    ensures !old(sink.dead) ==>
              Went(old(sink.sent), Frame(body), SendsFrame(old(sink.plan), body, Waits), sink.sent, sink.plan, ok)
  {
    ghost var before, alive, first := sink.sent, !sink.dead, sink.plan;
    ghost var h := Sends(first, |Header(|body|)|, Waits);
    ok := sink.Write(Header(|body|));
    if !ok {
      HeaderCut(before, body, sink.sent);
      if alive { FrameWent(before, body, Waits, first, sink.sent, sink.plan, ok, h, sink.sent); }
      return;
    }
    ghost var middle := sink.sent;
    assert Header(|body|)[..|Header(|body|)|] == Header(|body|);
    ok := sink.Write(body);
    FrameWent(before, body, Waits, first, sink.sent, sink.plan, ok, h, middle);
    if ok {
      assert before + Header(|body|) + body == before + Frame(body);
    } else {
      BodyCut(before, body, sink.sent);
    }
  }

  /** A notification's frame: a late or failing peer costs it the connection. */
  method WriteFrameBounded(sink: Sink, body: bytes) returns (ok: bool)
    modifies sink
    ensures ok ==> sink.sent == old(sink.sent) + Frame(body) && !sink.dead
    ensures !ok ==> sink.dead && CutShort(old(sink.sent), Frame(body), sink.sent)
    ensures old(sink.dead) ==> !ok && sink.sent == old(sink.sent) && sink.plan == old(sink.plan)
    ensures !old(sink.dead) ==>
              Went(old(sink.sent), Frame(body), SendsFrame(old(sink.plan), body, Bounded), sink.sent, sink.plan, ok)
  {
    ghost var before, alive, first := sink.sent, !sink.dead, sink.plan;
    ghost var h := Sends(first, |Header(|body|)|, Bounded);
    ok := sink.WriteBounded(Header(|body|));
    if !ok {
      HeaderCut(before, body, sink.sent);
      if alive { FrameWent(before, body, Bounded, first, sink.sent, sink.plan, ok, h, sink.sent); }
      return;
    }
    ghost var middle := sink.sent;
    assert Header(|body|)[..|Header(|body|)|] == Header(|body|);
    ok := sink.WriteBounded(body);
    FrameWent(before, body, Bounded, first, sink.sent, sink.plan, ok, h, middle);
    if ok {
      assert before + Header(|body|) + body == before + Frame(body);
    } else {
      BodyCut(before, body, sink.sent);
    }
  }

  /** How many frames of `bodies`, written one after the other, go out whole before one does not. */
  function WholeFrames(plan: seq<Outcome>, bodies: seq<bytes>): (n: nat)
    ensures n <= |bodies|
    decreases |bodies|
  {
    if bodies == [] then 0
    else
      var w := SendsFrame(plan, bodies[0], Waits);
      if w.count < |Frame(bodies[0])| then 0 else 1 + WholeFrames(w.plan, bodies[1..])
  }

  lemma LastingFrame(plan: seq<Outcome>, body: bytes, more: nat, patience: Patience)
    requires Lasts(plan, |Frame(body)| + more, patience)
    ensures var w := SendsFrame(plan, body, patience);
            w.count == |Frame(body)| && Lasts(w.plan, more, patience)
  {
    LastingSends(plan, |Header(|body|)|, |body| + more, patience);
    LastingSends(Sends(plan, |Header(|body|)|, patience).plan, |body|, more, patience);
  }

  /** Over a connection that lasts for all of them, all frames go out. */
  lemma {:induction false} LastingFrames(plan: seq<Outcome>, bodies: seq<bytes>)
    requires Lasts(plan, |Stream(ContentLength, bodies)|, Waits)
    ensures WholeFrames(plan, bodies) == |bodies|
    decreases |bodies|
  {
    if bodies != [] {
      LastingFrame(plan, bodies[0], |Stream(ContentLength, bodies[1..])|, Waits);
      LastingFrames(SendsFrame(plan, bodies[0], Waits).plan, bodies[1..]);
    }
  }

  lemma HeaderCut(before: bytes, body: bytes, now: bytes)
    requires CutShort(before, Header(|body|), now)
    ensures CutShort(before, Frame(body), now)
  {
    assert Frame(body)[..|now| - |before|] == Header(|body|)[..|now| - |before|];
  }

  lemma BodyCut(before: bytes, body: bytes, now: bytes)
    requires CutShort(before + Header(|body|), body, now)
    ensures CutShort(before, Frame(body), now)
  {
    var n := |now| - |before|;
    assert Frame(body)[..n] == Header(|body|) + body[..n - |Header(|body|)|];
    assert before + Frame(body)[..n] == before + Header(|body|) + body[..n - |Header(|body|)|];
  }

  // ---------------------------------------------------------------- what the other end receives

  lemma LineValue(line: bytes, n: nat)
    requires TextAt(line, 0, LengthLine(n)) && |line| == |LengthLine(n)| && n < ULONG_RANGE
    ensures |KEY| < |line| && KeyAt(line, 0) && Strtoul(line, |KEY|, |line|) == n
  {
    LengthLineRead(line, 0, n);
    StrtoulOwnLine(line, |KEY|, |line| - 1, |line|);
  }

  /** What a length line says, to either end. */
  lemma LineGives(n: nat, end: End)
    requires n < ULONG_RANGE
    ensures var line := LengthLine(n); |KEY| < |line| && GivesLength(line, end) && Strtoul(line, |KEY|, |line|) == n
  {
    var line := LengthLine(n);
    TextAtWhole(line);
    LineValue(line, n);
    NoNulInLine(n);
    CStringWhole(line);
  }

  lemma ReadOneHeader(s: bytes, a: nat, e: nat, line: bytes, end: End, length: Option<nat>)
    requires a <= e < |s| && LineEnd(s, a) == e && e - a < LINE_ROOM && s[a] != CR && s[a] != LF
    requires s[a..e + 1] == line && |KEY| < |line| && GivesLength(line, end)
    ensures ReadHeaders(s, a, end, length) == ReadHeaders(s, e + 1, end, Some(Strtoul(line, |KEY|, |line|)))
  {
  }

  /** A whole length line at `a` is a header line of its own. */
  lemma LengthLineAt(s: bytes, a: nat, n: nat) returns (e: nat)
    requires TextAt(s, a, LengthLine(n)) && n < ULONG_RANGE
    ensures e + 1 == a + |LengthLine(n)| && a <= e < |s| && LineEnd(s, a) == e && e - a < LINE_ROOM
    ensures s[a] != CR && s[a] != LF && s[a..e + 1] == LengthLine(n)
  {
    LengthLineRead(s, a, n);
    TextAtSlice(s, a, LengthLine(n));
    e := a + |LengthLine(n)| - 1;
  }

  /** The reader takes a whole length line at `a` for what it says. */
  lemma LengthLineTaken(s: bytes, a: nat, n: nat, end: End)
    requires TextAt(s, a, LengthLine(n)) && n < ULONG_RANGE
    ensures var e := a + |LengthLine(n)|;
            e <= |s| && ReadHeaders(s, a, end, None) == ReadHeaders(s, e, end, Some(n))
  {
    hide *;
    var e := LengthLineAt(s, a, n);
    LineGives(n, end);
    ReadOneHeader(s, a, e, LengthLine(n), end, None);
  }

  lemma NoNulInLine(n: nat)
    ensures NUL !in LengthLine(n)
  {
    var digits := Decimal.Digits(n);
    forall i | 0 <= i < |LengthLine(n)| ensures LengthLine(n)[i] != NUL {
      if 16 <= i < 16 + |digits| { assert LengthLine(n)[i] == digits[i - 16]; }
    }
  }

  /** A whole header at `a` announces its length. */
  lemma HeaderTaken(s: bytes, a: nat, n: nat, end: End)
    requires TextAt(s, a, Header(n)) && n < ULONG_RANGE
    ensures ReadHeaders(s, a, end, None) == Headers(Some(n), a + |Header(n)|)
  {
    HeaderLines(s, a, n);
    LengthLineTaken(s, a, n, end);
  }

  lemma BodyTaken(s: bytes, a: nat, at: nat, body: bytes, end: End)
    requires a <= at && at + |body| <= |s| && s[at..at + |body|] == body
    requires ReadHeaders(s, a, end, None) == Headers(Some(|body|), at)
    ensures FrameAt(s, a, end) == if 0 < |body| <= BodyLimit(end) then Some(Received(body, at + |body|)) else None
  {
  }

  /** Where the body of a whole frame lies. */
  lemma FrameParts(s: bytes, a: nat, body: bytes, end: End) returns (at: nat)
    requires TextAt(s, a, Frame(body)) && |body| < ULONG_RANGE
    ensures a <= at && at + |body| <= |s| && s[at..at + |body|] == body && at + |body| == a + |Frame(body)|
    ensures ReadHeaders(s, a, end, None) == Headers(Some(|body|), at)
  {
    hide ReadHeaders, AgreesFrom, LengthLine;
    at := a + |Header(|body|)|;
    TextAtSplit(s, a, Header(|body|), body);
    HeaderTaken(s, a, |body|, end);
    TextAtSlice(s, at, body);
  }

  /** A whole frame at `a`: received if its size is accepted, refused otherwise. */
  lemma FrameArrives(s: bytes, a: nat, body: bytes, end: End)
    requires TextAt(s, a, Frame(body)) && |body| < ULONG_RANGE
    ensures FrameAt(s, a, end) ==
            if 0 < |body| <= BodyLimit(end) then Some(Received(body, a + |Frame(body)|)) else None
  {
    var at := FrameParts(s, a, body, end);
    BodyTaken(s, a, at, body, end);
  }

  /** A header cut short by the end of the stream leaves no room for a body. */
  lemma CutHeader(s: bytes, a: nat, n: nat, k: nat, end: End)
    requires n < ULONG_RANGE && k < |Header(n)| && TextAt(s, a, Header(n)[..k]) && a + k == |s|
    ensures var h := ReadHeaders(s, a, end, None); h.length.None? || h.at == |s|
  {
    var line := |LengthLine(n)|;
    if k < line {
      assert Header(n)[..k] == LengthLine(n)[..k];
      NoBreakInLine(s, a, n, k);
      LineEndIs(s, a, |s|);
    } else {
      TextAtPrefix(s, a, Header(n)[..k], line);
      assert Header(n)[..k][..line] == LengthLine(n);
      LengthLineTaken(s, a, n, end);
      if k == line + 1 { TextAtByte(s, a, Header(n)[..k], line); }
      LineEndIs(s, a + line, |s|);
    }
  }

  /** A frame cut short by the end of the stream is not received. */
  lemma CutFrame(s: bytes, a: nat, body: bytes, k: nat, end: End)
    requires 0 < |body| < ULONG_RANGE && k < |Frame(body)|
    requires TextAt(s, a, Frame(body)[..k]) && a + k == |s|
    ensures FrameAt(s, a, end).None?
  {
    var header := Header(|body|);
    if k < |header| {
      assert Frame(body)[..k] == header[..k];
      CutHeader(s, a, |body|, k, end);
    } else {
      TextAtPrefix(s, a, Frame(body)[..k], |header|);
      assert Frame(body)[..k][..|header|] == header;
      HeaderTaken(s, a, |body|, end);
    }
  }

  /** The front of `bodies` up to the first the reading end refuses. */
  function Accepted(bodies: seq<bytes>, end: End): (r: seq<bytes>) {
    if bodies == [] || |bodies[0]| == 0 || |bodies[0]| > BodyLimit(end) then []
    else [bodies[0]] + Accepted(bodies[1..], end)
  }

  /** Bodies whose size the header can express. */
  ghost predicate Measurable(bodies: seq<bytes>) {
    forall k :: 0 <= k < |bodies| ==> |bodies[k]| < ULONG_RANGE
  }

  lemma FirstOfFrames(s: bytes, a: nat, bodies: seq<bytes>, tail: bytes)
    returns (next: nat)
    requires bodies != [] && TextAt(s, a, Stream(ContentLength, bodies) + tail)
    ensures TextAt(s, a, Frame(bodies[0])) && next == a + |Frame(bodies[0])|
    ensures TextAt(s, next, Stream(ContentLength, bodies[1..]) + tail)
    ensures next + |Stream(ContentLength, bodies[1..])| == a + |Stream(ContentLength, bodies)|
  {
    var first, rest := Frame(bodies[0]), Stream(ContentLength, bodies[1..]);
    AppendAssociates(first, rest, tail);
    TextAtSplit(s, a, first, rest + tail);
    next := a + |first|;
  }

  lemma FramesStep(s: bytes, a: nat, body: bytes, next: nat, end: End)
    requires TextAt(s, a, Frame(body)) && next == a + |Frame(body)| && |body| < ULONG_RANGE
    ensures Frames(s, a, end) == if 0 < |body| <= BodyLimit(end) then [body] + Frames(s, next, end) else []
  {
    FrameArrives(s, a, body, end);
  }

  /** Whole frames, and behind them a `tail` that gives none: exactly the whole ones arrive, in order. */
  lemma {:induction false} FramesArriveFrom(s: bytes, a: nat, bodies: seq<bytes>, tail: bytes, end: End)
    requires Measurable(bodies) && TextAt(s, a, Stream(ContentLength, bodies) + tail)
    requires a + |Stream(ContentLength, bodies)| + |tail| == |s|
    requires Frames(s, |s| - |tail|, end) == []
    ensures Frames(s, a, end) == Accepted(bodies, end)
    decreases |bodies|
  {
    if bodies != [] {
      var next := FirstOfFrames(s, a, bodies, tail);
      FramesStep(s, a, bodies[0], next, end);
      FramesArriveFrom(s, next, bodies[1..], tail, end);
    }
  }

  lemma CutTail(s: bytes, a: nat, last: bytes, k: nat, end: End)
    requires 0 < |last| < ULONG_RANGE && k < |Frame(last)| && TextAt(s, a, Frame(last)[..k]) && a + k == |s|
    ensures Frames(s, a, end) == []
  {
    CutFrame(s, a, last, k, end);
  }

  /** Whole frames with a cut one behind them, or nothing where `k == 0`: the other end's view. */
  lemma FramesArrive(bodies: seq<bytes>, last: bytes, k: nat, end: End)
    requires Measurable(bodies) && 0 < |last| < ULONG_RANGE && k < |Frame(last)|
    ensures Frames(Stream(ContentLength, bodies) + Frame(last)[..k], 0, end) == Accepted(bodies, end)
  {
    var whole, tail := Stream(ContentLength, bodies), Frame(last)[..k];
    TextAtWhole(whole + tail);
    TextAtSplit(whole + tail, 0, whole, tail);
    CutTail(whole + tail, |whole|, last, k, end);
    FramesArriveFrom(whole + tail, 0, bodies, tail, end);
  }

  lemma {:induction false} AllAccepted(bodies: seq<bytes>, end: End)
    requires forall k :: 0 <= k < |bodies| ==> 0 < |bodies[k]| <= BodyLimit(end)
    ensures Accepted(bodies, end) == bodies
  {
    if bodies != [] { AllAccepted(bodies[1..], end); }
  }

  lemma {:induction false} StreamAppend(kind: Kind, bodies: seq<bytes>, body: bytes)
    ensures Stream(kind, bodies + [body]) == Stream(kind, bodies) + Encoded(kind, body)
  {
    if bodies == [] {
      assert bodies + [body] == [body];
      assert Stream(kind, [body][1..]) == [];
    } else {
      assert (bodies + [body])[1..] == bodies[1..] + [body];
      StreamAppend(kind, bodies[1..], body);
    }
  }
}
