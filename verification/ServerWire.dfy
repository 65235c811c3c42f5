/** One connection as the server writes to it: replies and notifications interleave as whole frames. */
module ServerWire {
  import opened Bytes
  import C = ConnectionFrames
  import F = Framing
  import R = FramingRoundTrip
  import opened Transport

  /** A body the server may send: JSON text is never empty, and its length fits the header. */
  predicate Sendable(body: bytes) {
    0 < |body| < F.ULONG_RANGE
  }

  /** What became of a frame, and of the connection. */
  datatype Result = Result(ok: bool, dead: bool, plan: seq<Outcome>)

  /** A dead connection takes nothing, a live one what its sends let through; a cut frame is its last. */
  function Taken(dead: bool, plan: seq<Outcome>, body: bytes, patience: Patience): Result {
    if dead then Result(false, true, plan)
    else
      var w := C.SendsFrame(plan, body, patience);
      Result(w.count == |R.Frame(body)|, w.count < |R.Frame(body)|, w.plan)
  }

  class Wire {
    const sink: Sink
    /** The bodies whose frames went out whole, and the one whose frame was cut, if one was. */
    ghost var whole: seq<bytes>
    ghost var last: bytes

    ghost predicate Valid()
      reads this, sink
    {
      && C.Measurable(whole) && Sendable(last)
      && CutShort(R.Stream(F.ContentLength, whole), R.Frame(last), sink.sent)
      && (!sink.dead ==> sink.sent == R.Stream(F.ContentLength, whole))
    }

    constructor (plan: seq<Outcome>)
      ensures Valid() && fresh(sink) && whole == [] && !sink.dead && sink.plan == plan
    {
      sink := new Sink(plan);
      whole, last := [], [NUL];
      new;
      assert R.Frame(last)[..0] == [];
    }

    /** What a frame that went out whole, or was cut, leaves. */
    lemma FrameSent(body: bytes, before: seq<bytes>, sent: bytes)
      requires Sendable(body) && C.Measurable(before)
      ensures sent == R.Stream(F.ContentLength, before) + R.Frame(body) ==>
                sent == R.Stream(F.ContentLength, before + [body]) && C.Measurable(before + [body])
                && CutShort(R.Stream(F.ContentLength, before + [body]), R.Frame(body), sent)
    {
      C.StreamAppend(F.ContentLength, before, body);
      assert R.Frame(body)[..0] == [];
    }

    /** The serve thread's reply, written while it holds the write lock. */
    method Reply(body: bytes) returns (ok: bool)
      requires Valid() && Sendable(body)
      modifies this, sink
      ensures Valid()
      ensures ok <==> whole == old(whole) + [body]
      ensures !ok ==> sink.dead && whole == old(whole)
      ensures old(sink.dead) ==> !ok && sink.sent == old(sink.sent)
      ensures Taken(old(sink.dead), old(sink.plan), body, Waits) == Result(ok, sink.dead, sink.plan)
    {
      ok := C.WriteFrame(sink, body);
      if ok {
        FrameSent(body, whole, sink.sent);
        whole, last := whole + [body], body;
      } else if sink.sent != R.Stream(F.ContentLength, whole) && old(!sink.dead) {
        last := body;
      }
    }

    /** A broadcast's notification, written under the same lock if it is free: late peers are cut off. */
    method Notify(body: bytes) returns (ok: bool)
      requires Valid() && Sendable(body)
      modifies this, sink
      ensures Valid()
      ensures ok <==> whole == old(whole) + [body]
      ensures !ok ==> sink.dead && whole == old(whole)
      ensures old(sink.dead) ==> !ok && sink.sent == old(sink.sent)
      ensures Taken(old(sink.dead), old(sink.plan), body, Bounded) == Result(ok, sink.dead, sink.plan)
    {
      ok := C.WriteFrameBounded(sink, body);
      if ok {
        FrameSent(body, whole, sink.sent);
        whole, last := whole + [body], body;
      } else if sink.sent != R.Stream(F.ContentLength, whole) && old(!sink.dead) {
        last := body;
      }
    }

    /** The peer receives exactly the bodies whose frames are whole, in order, up to one it refuses. */
    lemma PeerReceives()
      requires Valid()
      ensures C.Frames(sink.sent, 0, C.Adapter) == C.Accepted(whole, C.Adapter)
    {
      var k := |sink.sent| - |R.Stream(F.ContentLength, whole)|;
      C.FramesArrive(whole, last, k, C.Adapter);
    }
  }

  /** A reply by the serve thread, a notification by some broadcaster, or an abort by stop. */
  datatype Event = Reply(body: bytes) | Notify(body: bytes) | NotifySkipped | Aborted

  predicate Carries(e: Event) {
    e.Reply? || e.Notify?
  }

  /** The bodies of those events whose write succeeded. */
  function Completed(events: seq<Event>, oks: seq<bool>): (r: seq<bytes>)
    requires |oks| <= |events|
  {
    if oks == [] then []
    else
      var n := |oks| - 1;
      Completed(events, oks[..n]) + if oks[n] && Carries(events[n]) then [events[n].body] else []
  }

  /** After this event nothing more goes out. */
  predicate Ends(e: Event, ok: bool) {
    e.Aborted? || (Carries(e) && !ok)
  }

  /** The connection, the serve thread, and how the events so far went. */
  datatype Line = Line(dead: bool, plan: seq<Outcome>, serving: bool, oks: seq<bool>)

  /** One event; a serve thread whose reply failed replies no more, and nothing goes out after an abort. */
  function Handled(l: Line, e: Event): Line {
    match e
    case Reply(body) =>
      if !l.serving then l.(oks := l.oks + [false])
      else
        var r := Taken(l.dead, l.plan, body, Waits);
        Line(r.dead, r.plan, r.ok, l.oks + [r.ok])
    case Notify(body) =>
      var r := Taken(l.dead, l.plan, body, Bounded);
      Line(r.dead, r.plan, l.serving, l.oks + [r.ok])
    case NotifySkipped => l.(oks := l.oks + [false])
    case Aborted => l.(dead := true, oks := l.oks + [false])
  }

  /** How the first `n` events go over a fresh connection. */
  function Driven(plan: seq<Outcome>, events: seq<Event>, n: nat): (l: Line)
    requires n <= |events|
    ensures |l.oks| == n
  {
    if n == 0 then Line(false, plan, true, []) else Handled(Driven(plan, events, n - 1), events[n - 1])
  }

  /** How many bytes these events write if all succeed. */
  function Load(events: seq<Event>, n: nat): nat
    requires n <= |events|
  {
    if n == 0 then 0
    else Load(events, n - 1) + if Carries(events[n - 1]) then |R.Frame(events[n - 1].body)| else 0
  }

  lemma SameFrame(plan: seq<Outcome>, body: bytes, more: nat)
    requires Lasts(plan, |R.Frame(body)| + more, Bounded)
    ensures C.SendsFrame(plan, body, Waits) == C.SendsFrame(plan, body, Bounded)
  {
    var h := |R.Header(|body|)|;
    PatienceIdle(plan, h, |body| + more);
    LastingSends(plan, h, |body| + more, Bounded);
    PatienceIdle(Sends(plan, h, Bounded).plan, |body|, more);
  }

  /** Unless it is aborted, over a connection that lasts every reply and notification goes out whole. */
  lemma {:induction false} LastingDrive(plan: seq<Outcome>, events: seq<Event>, n: nat, more: nat)
    requires n <= |events| && Lasts(plan, Load(events, n) + more, Bounded)
    requires forall i :: 0 <= i < n ==> !events[i].Aborted?
    ensures var l := Driven(plan, events, n);
            && !l.dead && l.serving && Lasts(l.plan, more, Bounded)
            && forall i :: 0 <= i < n ==> (l.oks[i] <==> Carries(events[i]))
  {
    if n > 0 {
      var e := events[n - 1];
      var size := if Carries(e) then |R.Frame(e.body)| else 0;
      LastingDrive(plan, events, n - 1, size + more);
      var l := Driven(plan, events, n - 1);
      if Carries(e) {
        C.LastingFrame(l.plan, e.body, more, Bounded);
        SameFrame(l.plan, e.body, more);
      }
    }
  }

  method Handle(wire: Wire, e: Event, serving: bool) returns (ok: bool, serving': bool)
    requires wire.Valid() && (Carries(e) ==> Sendable(e.body)) && (!serving ==> wire.sink.dead)
    modifies wire, wire.sink
    ensures wire.Valid() && wire.whole == if ok && Carries(e) then old(wire.whole) + [e.body] else old(wire.whole)
    ensures (!serving' || Ends(e, ok) || old(wire.sink.dead)) ==> wire.sink.dead
    ensures old(wire.sink.dead) ==> !ok
    ensures forall oks :: Handled(Line(old(wire.sink.dead), old(wire.sink.plan), serving, oks), e) ==
                          Line(wire.sink.dead, wire.sink.plan, serving', oks + [ok])
  {
    ok, serving' := false, serving;
    match e
    case Reply(body) =>
      if serving {
        ok := wire.Reply(body);
        serving' := ok;
      }
    case Notify(body) => ok := wire.Notify(body);
    case NotifySkipped =>
    case Aborted => wire.sink.Abort();
  }

  /** One of these events has ended the connection. */
  predicate Over(events: seq<Event>, oks: seq<bool>)
    requires |oks| <= |events|
  {
    oks != [] && (Over(events, oks[..|oks| - 1]) || Ends(events[|oks| - 1], oks[|oks| - 1]))
  }

  /** Once an event has ended the connection, no later one succeeds. */
  predicate NothingAfter(events: seq<Event>, oks: seq<bool>)
    requires |oks| <= |events|
  {
    oks == [] || (NothingAfter(events, oks[..|oks| - 1]) && !(Over(events, oks[..|oks| - 1]) && oks[|oks| - 1]))
  }

  /** Replies, notifications and aborts, in whatever order they come. */
  method Drive(wire: Wire, events: seq<Event>) returns (oks: seq<bool>)
    requires wire.Valid() && wire.whole == []
    requires forall i :: 0 <= i < |events| && Carries(events[i]) ==> Sendable(events[i].body)
    modifies wire, wire.sink
    requires !wire.sink.dead
    ensures wire.Valid() && |oks| == |events| && wire.whole == Completed(events, oks) && NothingAfter(events, oks)
    ensures oks == Driven(old(wire.sink.plan), events, |events|).oks
  {
    hide Wire.Valid, Sendable;
    var serving := true;
    oks := [];
    for n := 0 to |events|
      invariant wire.Valid() && |oks| == n && wire.whole == Completed(events, oks)
      invariant !serving ==> wire.sink.dead
      invariant Driven(old(wire.sink.plan), events, n) == Line(wire.sink.dead, wire.sink.plan, serving, oks)
      invariant (Over(events, oks) ==> wire.sink.dead) && NothingAfter(events, oks)
    {
      var ok;
      ok, serving := Handle(wire, events[n], serving);
      CompletedNext(events, oks, ok);
      oks := oks + [ok];
    }
  }

  /**
   * Any interleaving of replies, notifications and aborts over any sends: the peer receives just the
   * bodies whose writes succeeded, in that order, and nothing follows a write that failed.
   */
  method Converse(events: seq<Event>, plan: seq<Outcome>, peerPlan: seq<nat>)
      returns (received: seq<bytes>, oks: seq<bool>)
    requires forall i :: 0 <= i < |events| && Carries(events[i]) ==> Sendable(events[i].body)
    ensures |oks| == |events| && NothingAfter(events, oks) && oks == Driven(plan, events, |events|).oks
    ensures received == C.Accepted(Completed(events, oks), C.Adapter)
    ensures (forall i :: 0 <= i < |events| && Carries(events[i]) ==> |events[i].body| <= F.MAX_MESSAGE) ==>
              received == Completed(events, oks)
  {
    var wire := new Wire(plan);
    oks := Drive(wire, events);
    wire.PeerReceives();
    var peer := new Source(wire.sink.sent, peerPlan);
    received := C.ReadAllFrames(peer, C.Adapter);
    if forall i :: 0 <= i < |events| && Carries(events[i]) ==> |events[i].body| <= F.MAX_MESSAGE {
      CompletedSizes(events, oks);
      C.AllAccepted(Completed(events, oks), C.Adapter);
    }
  }

  lemma CompletedNext(events: seq<Event>, oks: seq<bool>, ok: bool)
    requires |oks| < |events|
    ensures Completed(events, oks + [ok]) ==
            if ok && Carries(events[|oks|]) then Completed(events, oks) + [events[|oks|].body]
              else Completed(events, oks)
    ensures Over(events, oks + [ok]) <==> Over(events, oks) || Ends(events[|oks|], ok)
    ensures NothingAfter(events, oks + [ok]) <==> NothingAfter(events, oks) && !(Over(events, oks) && ok)
  {
    assert (oks + [ok])[..|oks|] == oks;
    assert Completed(events, oks) + [] == Completed(events, oks);
  }

  lemma {:induction false} CompletedSizes(events: seq<Event>, oks: seq<bool>)
    requires |oks| <= |events|
    requires forall i :: 0 <= i < |events| && Carries(events[i]) ==> 0 < |events[i].body| <= F.MAX_MESSAGE
    ensures forall k :: 0 <= k < |Completed(events, oks)| ==> 0 < |Completed(events, oks)[k]| <= F.MAX_MESSAGE
  {
    if oks != [] { CompletedSizes(events, oks[..|oks| - 1]); }
  }
}
