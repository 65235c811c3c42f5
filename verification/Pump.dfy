/** The two pump threads: stdin to the server, and the server to stdout. */
module Pump {
  import opened Bytes
  import C = ConnectionFrames
  import F = Framing
  import R = FramingRoundTrip
  import opened StdioReader
  import opened Transport

  /** Publishes the client's framing; the first setting wins. */
  class Latch {
    var framing: F.Kind

    constructor ()
      ensures framing == F.Unknown
    {
      framing := F.Unknown;
    }

    method Set(kind: F.Kind)
      modifies this
      ensures framing == if old(framing) == F.Unknown then kind else old(framing)
    {
      if framing == F.Unknown {
        framing := kind;
      }
    }

    /**
     * Blocks until the framing is set. `meanwhile` is what the other thread sets while this one waits;
     * if that is nothing, the wait does not end.
     */
    method Wait(meanwhile: F.Kind) returns (kind: F.Kind)
      modifies this
      ensures framing == kind == if old(framing) == F.Unknown then meanwhile else old(framing)
    {
      if framing == F.Unknown {
        framing := meanwhile;
      }
      kind := framing;
    }
  }

  /** What was sent is the frames of `done`, then nothing of `left`, or a cut frame of its first. */
  ghost predicate Sent(sent: bytes, kind: F.Kind, done: seq<bytes>, left: seq<bytes>) {
    if left == [] then sent == R.Stream(kind, done)
    else CutShort(R.Stream(kind, done), R.Encoded(kind, left[0]), sent)
  }

  /** `left` is what is still to be read. */
  ghost predicate Holds(reader: Reader, left: seq<bytes>)
    requires reader.Valid()
    reads reader, reader.buf, reader.source
  {
    reader.RestFits() && reader.Rest() == left
  }

  lemma Moved(kind: F.Kind, done: seq<bytes>, message: bytes, rest: seq<bytes>)
    ensures done + ([message] + rest) == (done + [message]) + rest
    ensures R.Stream(kind, done + [message]) == R.Stream(kind, done) + R.Encoded(kind, message)
  {
    C.StreamAppend(kind, done, message);
  }

  /**
   * One turn as the connection lets it be: with nothing to send it is the last one and leaves the connection
   * alone; else the first frame goes out whole exactly if the connection takes it.
   */
  ghost predicate Turned(
      dead: bool, plan: seq<Outcome>, left: seq<bytes>, dead': bool, plan': seq<Outcome>,
      done: seq<bytes>, done': seq<bytes>, left': seq<bytes>, more: bool)
  {
    if left == [] then !more && dead' == dead && done' == done && left' == []
    else
      var w := C.SendsFrame(plan, left[0], Waits);
      && (more <==> !dead && w.count == |R.Frame(left[0])|)
      && (more ==> plan' == w.plan && done' == done + [left[0]] && left' == left[1..])
      && (!more ==> done' == done && left' == left)
      && (dead' <==> !more)
  }

  /** One turn of the up pump. */
  method Forward(reader: Reader, latch: Latch, sink: Sink, ghost fits: bool, ghost done: seq<bytes>,
      ghost left: seq<bytes>)
    returns (more: bool, ghost done': seq<bytes>, ghost left': seq<bytes>)
    requires reader.Valid()
    requires fits ==> Holds(reader, left) && sink.sent == R.Stream(F.ContentLength, done)
    modifies reader`buf, reader`len, reader`pos, reader`eof, reader`kind, reader.buf,
             reader.source`given, reader.source`plan, latch, sink
    ensures reader.Valid() && (reader.buf == old(reader.buf) || fresh(reader.buf))
    ensures more ==> reader.Position() > old(reader.Position())
    ensures fits ==> done + left == done' + left' && (more ==> left != [])
    ensures fits && more ==> Holds(reader, left') && sink.sent == R.Stream(F.ContentLength, done')
    ensures fits && !more ==> Sent(sink.sent, F.ContentLength, done', left') && (left' != [] ==> sink.dead)
    ensures fits && left != [] ==>
            latch.framing == if old(latch.framing) == F.Unknown then reader.kind else old(latch.framing)
    ensures fits && left == [] ==> latch.framing == old(latch.framing)
    ensures fits ==> Turned(old(sink.dead), old(sink.plan), left, sink.dead, sink.plan, done, done', left', more)
    ensures fits ==> reader.kind == F.Next(reader.source.stream, old(reader.kind), old(reader.Position())).kind
  {
    var r := reader.NextMessage(0);
    if r.None? {
      return false, done, left;
    }
    latch.Set(reader.kind);
    more := C.WriteFrame(sink, r.value);
    ghost var rest := reader.Rest();
    Moved(F.ContentLength, done, r.value, rest);
    done', left' := if more then done + [r.value] else done, if more then rest else left;
  }

  /** How many of `bodies` go out over the connection. */
  ghost function Whole(dead: bool, plan: seq<Outcome>, bodies: seq<bytes>): nat {
    if dead then 0 else C.WholeFrames(plan, bodies)
  }

  /** The framing published once messages have been read. */
  ghost function Published(before: F.Kind, stream: bytes): F.Kind {
    if before == F.Unknown then F.Next(stream, F.Unknown, 0).kind else before
  }

  /**
   * The up pump: the messages of the stream go out one frame each, in order, until all are out or
   * the connection fails; the latch gets the framing of the first.
   */
  method PumpUp(source: Source, latch: Latch, sink: Sink, memory: bytes)
    returns (ghost done: seq<bytes>, ghost left: seq<bytes>)
    requires source.Valid() && source.given == 0 && sink.sent == []
    modifies source, latch, sink
    ensures source.Valid()
    ensures F.AllFit(source.stream, F.Unknown, 0) ==>
              && F.Messages(source.stream, F.Unknown, 0) == done + left
              && Sent(sink.sent, F.ContentLength, done, left) && (left != [] ==> sink.dead)
              && latch.framing == if done + left == [] then old(latch.framing)
                 else Published(old(latch.framing), source.stream)
    ensures F.AllFit(source.stream, F.Unknown, 0) ==>
              && |done| == Whole(old(sink.dead), old(sink.plan), F.Messages(source.stream, F.Unknown, 0))
              && sink.dead == (old(sink.dead) || left != [])
    ensures F.AllFit(source.stream, F.Unknown, 0) && !old(sink.dead)
            && Lasts(old(sink.plan), |R.Stream(F.ContentLength, F.Messages(source.stream, F.Unknown, 0))|, Waits) ==>
              left == []
  {
    var reader := new Reader(source, memory);
    ghost var fits, all := reader.RestFits(), reader.Rest();
    ghost var dead, whole := sink.dead, Whole(sink.dead, sink.plan, all);
    ghost var goal := if all == [] then latch.framing else Published(latch.framing, source.stream);
    assert [] + all == all;
    var more;
    more, done, left := Forward(reader, latch, sink, fits, [], all);
    while more
      invariant reader.Valid() && reader.source == source && fresh(reader) && fresh(reader.buf)
      invariant fits ==> all == done + left && latch.framing == goal
      invariant fits && more ==> all != [] && reader.kind == F.Next(source.stream, F.Unknown, 0).kind != F.Unknown
      invariant fits ==> if more then Holds(reader, left) && sink.sent == R.Stream(F.ContentLength, done)
                         else Sent(sink.sent, F.ContentLength, done, left) && (left != [] ==> sink.dead)
      invariant fits && more ==> !dead && !sink.dead && whole == |done| + C.WholeFrames(sink.plan, left)
      invariant fits && !more ==> whole == |done| && sink.dead == (dead || left != [])
      decreases more, |source.stream| - reader.Position()
    {
      more, done, left := Forward(reader, latch, sink, fits, done, left);
    }
    if fits && !dead && Lasts(old(sink.plan), |R.Stream(F.ContentLength, all)|, Waits) {
      C.LastingFrames(old(sink.plan), all);
    }
  }

  /** How many of `bodies` are written whole before a write fails; a dead stdout takes nothing. */
  function WholeWrites(dead: bool, plan: seq<Outcome>, kind: F.Kind, bodies: seq<bytes>): (n: nat)
    ensures n <= |bodies|
    decreases |bodies|
  {
    if bodies == [] || dead then 0
    else
      var text := R.Encoded(kind, bodies[0]);
      var w := Sends(plan, |text|, Never);
      if w.count < |text| then 0 else 1 + WholeWrites(dead, w.plan, kind, bodies[1..])
  }

  /** A stdout that lasts for all of them takes all. */
  lemma {:induction false} LastingWrites(plan: seq<Outcome>, kind: F.Kind, bodies: seq<bytes>)
    requires Lasts(plan, |R.Stream(kind, bodies)|, Never)
    ensures WholeWrites(false, plan, kind, bodies) == |bodies|
    decreases |bodies|
  {
    if bodies != [] {
      var n := |R.Encoded(kind, bodies[0])|;
      LastingSends(plan, n, |R.Stream(kind, bodies[1..])|, Never);
      LastingWrites(Sends(plan, n, Never).plan, kind, bodies[1..]);
    }
  }

  /** One message to stdout. */
  method WriteDown(stdout: Sink, kind: F.Kind, body: bytes) returns (ok: bool)
    modifies stdout
    ensures ok ==> stdout.sent == old(stdout.sent) + R.Encoded(kind, body) && stdout.dead == old(stdout.dead)
    ensures !ok ==> CutShort(old(stdout.sent), R.Encoded(kind, body), stdout.sent)
    ensures old(stdout.dead) ==> !ok
    ensures !old(stdout.dead) ==>
              var text := R.Encoded(kind, body);
              Went(old(stdout.sent), text, Sends(old(stdout.plan), |text|, Never), stdout.sent, stdout.plan, ok)
  {
    var out, n := R.Encode(kind, body);
    ok := stdout.WriteStdout(out[..n]);
  }

  /** What stdout has got after `done`: their encodings, once there is a framing to write them in. */
  ghost predicate Shown(sent: bytes, framing: F.Kind, done: seq<bytes>) {
    if framing == F.Unknown then done == [] && sent == [] else sent == R.Stream(framing, done)
  }

  /** One turn of the down pump: a frame of the server, the wait for the framing, a write. */
  method Deliver(source: Source, latch: Latch, stdout: Sink, meanwhile: F.Kind, ghost done: seq<bytes>,
      ghost left: seq<bytes>)
    returns (more: bool, ghost done': seq<bytes>, ghost left': seq<bytes>)
    requires source.Valid() && left == C.Frames(source.stream, source.given, C.Adapter)
    requires Shown(stdout.sent, latch.framing, done)
    modifies source, stdout, latch
    ensures source.Valid() && done' + left' == done + left
    ensures latch.framing == if old(latch.framing) == F.Unknown && left != [] then meanwhile else old(latch.framing)
    ensures more ==> left' == C.Frames(source.stream, source.given, C.Adapter) && source.given > old(source.given)
    ensures more ==> left != [] && latch.framing != F.Unknown && Shown(stdout.sent, latch.framing, done')
    ensures !more ==> if latch.framing == F.Unknown then done' == done && stdout.sent == old(stdout.sent)
                      else Sent(stdout.sent, latch.framing, done', left')
    ensures latch.framing != F.Unknown ==>
              |done| + WholeWrites(old(stdout.dead), old(stdout.plan), latch.framing, left) ==
              |done'| + if more then WholeWrites(stdout.dead, stdout.plan, latch.framing, left') else 0
  {
    var body := C.ReadFrame(source, C.Adapter);
    if body.None? {
      return false, done, left;
    }
    ghost var rest := C.Frames(source.stream, source.given, C.Adapter);
    var kind := latch.Wait(meanwhile);
    if kind == F.Unknown {
      return false, done, left;
    }
    Moved(kind, done, body.value, rest);
    more := WriteDown(stdout, kind, body.value);
    done', left' := if more then done + [body.value] else done, if more then rest else left;
  }

  /**
   * The down pump: every frame of the server goes to stdout in the published framing, until all are out or a
   * write fails. Before the first it waits for the client's framing, which the up pump may publish then; if it
   * never does, nothing is written.
   */
  method PumpDown(source: Source, latch: Latch, stdout: Sink, meanwhile: F.Kind)
    returns (ghost done: seq<bytes>, ghost left: seq<bytes>)
    requires source.Valid() && source.given == 0 && stdout.sent == []
    modifies source, stdout, latch
    ensures C.Frames(source.stream, 0, C.Adapter) == done + left
    ensures latch.framing ==
            if old(latch.framing) == F.Unknown && done + left != [] then meanwhile else old(latch.framing)
    ensures latch.framing == F.Unknown ==> stdout.sent == [] && done == []
    ensures latch.framing != F.Unknown ==> Sent(stdout.sent, latch.framing, done, left)
    ensures latch.framing != F.Unknown ==>
              |done| == WholeWrites(old(stdout.dead), old(stdout.plan), latch.framing, done + left)
    ensures latch.framing != F.Unknown && !old(stdout.dead)
            && Lasts(old(stdout.plan), |R.Stream(latch.framing, done + left)|, Never) ==>
              left == []
  {
    hide C.Frames, R.Encoded, R.Stream, Lasts, CutShort;
    ghost var dead, plan, all := stdout.dead, stdout.plan, C.Frames(source.stream, 0, C.Adapter);
    ghost var before := latch.framing;
    NothingShown(before);
    assert [] + all == all;
    var more;
    more, done, left := Deliver(source, latch, stdout, meanwhile, [], all);
    while more
      invariant source.Valid() && done + left == all
      invariant latch.framing == if before == F.Unknown && all != [] then meanwhile else before
      invariant if more then all != [] && latch.framing != F.Unknown && Shown(stdout.sent, latch.framing, done)
                             && left == C.Frames(source.stream, source.given, C.Adapter)
                else if latch.framing == F.Unknown then done == [] && stdout.sent == []
                else Sent(stdout.sent, latch.framing, done, left)
      invariant latch.framing != F.Unknown ==>
                  WholeWrites(dead, plan, latch.framing, all) ==
                  |done| + if more then WholeWrites(stdout.dead, stdout.plan, latch.framing, left) else 0
      decreases more, |source.stream| - source.given
    {
      more, done, left := Deliver(source, latch, stdout, meanwhile, done, left);
    }
    if !dead && Lasts(plan, |R.Stream(latch.framing, all)|, Never) { LastingWrites(plan, latch.framing, all); }
  }

  lemma NothingShown(framing: F.Kind)
    ensures Shown([], framing, [])
  {
  }

  /** What a call returns is a message of 1 byte to 16 MiB. */
  lemma {:induction false} LineIsSendable(s: bytes, a: nat)
    requires a <= |s| && F.NextLine(s, a).message.Some?
    ensures 0 < |F.NextLine(s, a).message.value| <= F.MAX_MESSAGE
    decreases |s| - a
  {
    var e := F.LineEnd(s, a);
    if e - a < F.MAX_MESSAGE && e < |s| && F.Trimmed(s, a, e) == [] { LineIsSendable(s, e + 1); }
  }

  lemma {:induction false} BodyIsSendable(s: bytes, a: nat, any: bool, length: Option<nat>)
    requires a <= |s| && F.NextFrame(s, a, any, length).message.Some?
    ensures 0 < |F.NextFrame(s, a, any, length).message.value| <= F.MAX_MESSAGE
    decreases |s| - a
  {
    var e := F.LineEnd(s, a);
    if !F.BlankHeader(s, a, e) {
      var given := F.HeaderLength(s, a, e);
      BodyIsSendable(s, e + 1, true, if given.Some? then given else length);
    } else if !any {
      BodyIsSendable(s, e + 1, any, length);
    }
  }

  lemma {:induction false} MessagesAreSendable(s: bytes, kind: F.Kind, a: nat)
    requires a <= |s|
    ensures R.Sendable(F.Messages(s, kind, a))
    decreases |s| - a
  {
    var r := F.Next(s, kind, a);
    if r.message.Some? {
      var b := if kind == F.Unknown then F.SkipMarks(s, a) else a;
      if r.kind == F.Ndjson {
        LineIsSendable(s, b);
      } else {
        BodyIsSendable(s, b, false, None);
      }
      MessagesAreSendable(s, r.kind, r.at);
    }
  }

  /** What the other end receives of frames that went out whole but for the last. */
  lemma SentArrives(sent: bytes, done: seq<bytes>, left: seq<bytes>, end: C.End)
    requires Sent(sent, F.ContentLength, done, left) && R.Sendable(done + left)
    ensures C.Frames(sent, 0, end) == C.Accepted(done, end)
  {
    assert forall k :: 0 <= k < |done| ==> done[k] == (done + left)[k];
    var k := |sent| - |R.Stream(F.ContentLength, done)|;
    if left == [] {
      assert sent + R.Frame([NUL])[..0] == sent;
      C.FramesArrive(done, [NUL], 0, end);
    } else {
      assert (done + left)[|done|] == left[0];
      C.FramesArrive(done, left[0], k, end);
    }
  }

  lemma {:induction false} AcceptedIsFront(bodies: seq<bytes>, end: C.End)
    ensures C.Accepted(bodies, end) <= bodies
  {
    if bodies != [] { AcceptedIsFront(bodies[1..], end); }
  }

  /**
   * Stdin through the pump to the server: whatever the reads, the sends and the server's reads are, the
   * server receives exactly the messages whose frames the connection takes whole, in order, up to the first
   * it refuses. Over a connection that lasts, that is all of them.
   */
  method UpEndToEnd(stream: bytes, plan: seq<nat>, memory: bytes, sends: seq<Outcome>, serverPlan: seq<nat>)
    returns (received: seq<bytes>, failed: bool)
    ensures F.AllFit(stream, F.Unknown, 0) ==>
              var all := F.Messages(stream, F.Unknown, 0); var n := C.WholeFrames(sends, all);
              && received == C.Accepted(all[..n], C.Server) <= all && (failed <==> n < |all|)
              && (Lasts(sends, |R.Stream(F.ContentLength, all)|, Waits) ==>
                    !failed && received == C.Accepted(all, C.Server))
  {
    var source := new Source(stream, plan);
    var latch := new Latch();
    var sink := new Sink(sends);
    ghost var done, left := PumpUp(source, latch, sink, memory);
    failed := sink.dead;
    var incoming := new Source(sink.sent, serverPlan);
    received := C.ReadAllFrames(incoming, C.Server);
    if F.AllFit(stream, F.Unknown, 0) {
      ghost var all := F.Messages(stream, F.Unknown, 0);
      MessagesAreSendable(stream, F.Unknown, 0);
      SentArrives(sink.sent, done, left, C.Server);
      AcceptedIsFront(done, C.Server);
      assert all[..|done|] == done;
      if left == [] { assert done + left == done; }
      if Lasts(sends, |R.Stream(F.ContentLength, all)|, Waits) { C.LastingFrames(sends, all); }
    }
  }
}
