/** The server's connection slots: accepting, serving, broadcasting and stopping. */
module ServerSlots {
  import opened Bytes

  const MAX_CONNS: nat := 8

  datatype Client = Client(conn: Option<nat>, initialized: bool)

  /** Where an accepted connection is: in a slot, with the thread about to close it, or closed. */
  datatype Place = InSlot(k: nat) | Closing | Closed(position: nat)

  const EMPTY: Client := Client(None, false)

  /** How many of the first `n` slots are taken. */
  function Taken(clients: seq<Client>, n: nat): (r: nat)
    requires n <= |clients|
    ensures r <= n
  {
    if n == 0 then 0 else Taken(clients, n - 1) + if clients[n - 1].conn.Some? then 1 else 0
  }

  lemma {:induction false} TakenChanged(clients: seq<Client>, k: nat, c: Client, n: nat)
    requires k < |clients| && n <= |clients|
    ensures Taken(clients[k := c], n) ==
            if k >= n then Taken(clients, n)
            else Taken(clients, n) + (if c.conn.Some? then 1 else 0) - (if clients[k].conn.Some? then 1 else 0)
  {
    if n > 0 { TakenChanged(clients, k, c, n - 1); }
  }

  lemma {:induction false} NoneTaken(clients: seq<Client>, n: nat, k: nat)
    requires k < n <= |clients| && Taken(clients, n) == 0
    ensures clients[k].conn.None?
  {
    if k < n - 1 { NoneTaken(clients, n - 1, k); }
  }

  /** The first empty slot from `i` on, or the number of slots. */
  function EmptyFrom(clients: seq<Client>, i: nat): (r: nat)
    requires i <= |clients|
    ensures i <= r <= |clients| && (r < |clients| ==> clients[r].conn.None?)
    decreases |clients| - i
  {
    if i < |clients| && clients[i].conn.Some? then EmptyFrom(clients, i + 1) else i
  }

  /** Slots, places and the record of closings agree. */
  ghost predicate Linked(clients: seq<Client>, places: seq<Place>, closings: seq<nat>) {
    && (forall k :: 0 <= k < |clients| && clients[k].conn.Some? ==>
          clients[k].conn.value < |places| && places[clients[k].conn.value] == InSlot(k))
    && (forall c :: 0 <= c < |places| && places[c].InSlot? ==>
          places[c].k < |clients| && clients[places[c].k].conn == Some(c))
    && (forall c :: 0 <= c < |places| && places[c].Closed? ==>
          places[c].position < |closings| && closings[places[c].position] == c)
    && (forall p :: 0 <= p < |closings| ==> closings[p] < |places| && places[closings[p]] == Closed(p))
  }

  /** No connection is closed twice. */
  lemma ClosedOnce(clients: seq<Client>, places: seq<Place>, closings: seq<nat>, p: nat, q: nat)
    requires Linked(clients, places, closings) && p < |closings| && q < |closings| && closings[p] == closings[q]
    ensures p == q
  {
  }

  datatype Phase = Idle | Serving | ListenerClosed | Draining

  /** All there is to a server: the slots, their count, the phase, and what became of its connections. */
  datatype State = State(
    clients: seq<Client>, activeClients: int, phase: Phase, places: seq<Place>, closings: seq<nat>)

  class Server {
    var clients: seq<Client>
    var activeClients: nat
    var phase: Phase
    /** What became of every connection ever accepted, and the closings in order. */
    var places: seq<Place>
    var closings: seq<nat>

    ghost predicate Valid()
      reads this
    {
      && |clients| == MAX_CONNS && activeClients == Taken(clients, MAX_CONNS)
      && Linked(clients, places, closings)
      && (phase == Idle ==> activeClients == 0)
    }

    function Now(): State
      reads this
    {
      State(clients, activeClients, phase, places, closings)
    }

    constructor ()
      ensures Valid() && Now() == Initial()
    {
      clients := seq(MAX_CONNS, _ => EMPTY);
      activeClients, phase := 0, Idle;
      places, closings := [], [];
      new;
      NothingYet(clients, MAX_CONNS);
    }

    method Start()
      requires Valid()
      modifies this`phase
      ensures Valid() && phase == if old(phase) == Idle then Serving else old(phase)
    {
      if phase == Idle {
        phase := Serving;
      }
    }

    method FindEmpty() returns (k: nat)
      ensures k == EmptyFrom(clients, 0)
    {
      k := 0;
      while k < |clients| && clients[k].conn.Some?
        invariant k <= |clients| && EmptyFrom(clients, 0) == EmptyFrom(clients, k)
      {
        k := k + 1;
      }
    }

    /**
     * The accept thread has a new connection `c`: it gets the first empty slot and a serve thread, or
     * is to be closed if all eight are taken or no thread can be started.
     */
    method Accept(threadWorks: bool) returns (c: nat, slot: Option<nat>)
      requires Valid() && (phase == Serving || phase == ListenerClosed)
      modifies this`clients, this`activeClients, this`places
      ensures Valid() && c == |old(places)| && |places| == |old(places)| + 1 && old(places) == places[..c]
      ensures slot.Some? <==> old(activeClients) < MAX_CONNS && threadWorks
      ensures slot.None? ==> places[c] == Closing && clients == old(clients) && activeClients == old(activeClients)
      ensures slot.Some? ==> slot.value == EmptyFrom(old(clients), 0) < MAX_CONNS && places[c] == InSlot(slot.value)
      ensures slot.Some? ==> clients == old(clients)[slot.value := Client(Some(c), false)]
      ensures slot.Some? ==> activeClients == old(activeClients) + 1
    {
      hide Taken, EmptyFrom;
      c := |places|;
      var k := FindEmpty();
      EmptyIffRoom(clients, 0);
      if k == |clients| || !threadWorks {
        places := places + [Closing];
        return c, None;
      }
      TakenChanged(clients, k, Client(Some(c), false), MAX_CONNS);
      clients, places, activeClients := clients[k := Client(Some(c), false)], places + [InSlot(k)], activeClients + 1;
      return c, Some(k);
    }

    /** The client of slot `k` has done its handshake. */
    method MarkInitialized(k: nat)
      requires Valid() && k < MAX_CONNS && clients[k].conn.Some?
      modifies this`clients
      ensures Valid() && clients == old(clients)[k := old(clients)[k].(initialized := true)]
    {
      TakenChanged(clients, k, clients[k].(initialized := true), MAX_CONNS);
      clients := clients[k := clients[k].(initialized := true)];
    }

    /** The serve thread of slot `k` ends: the slot is cleared, the connection left for it to close. */
    method Unwind(k: nat) returns (c: nat, drained: bool)
      requires Valid() && k < MAX_CONNS && clients[k].conn.Some?
      modifies this`clients, this`activeClients, this`places
      ensures Valid() && clients == old(clients)[k := EMPTY] && Some(c) == old(clients[k].conn)
      ensures c < |old(places)| && places == old(places)[c := Closing]
      ensures drained <==> activeClients == 0
      ensures activeClients == old(activeClients) - 1
    {
      c := clients[k].conn.value;
      TakenChanged(clients, k, EMPTY, MAX_CONNS);
      clients, activeClients, places := clients[k := EMPTY], activeClients - 1, places[c := Closing];
      drained := activeClients == 0;
    }

    /** `mcp_conn_close` by the thread that owns the connection. */
    method Close(c: nat)
      requires Valid() && c < |places| && places[c] == Closing
      modifies this`places, this`closings
      ensures Valid() && closings == old(closings) + [c] && c !in old(closings)
      ensures places == old(places)[c := Closed(|old(closings)|)]
    {
      places, closings := places[c := Closed(|closings|)], closings + [c];
    }

    /** A broadcast under the connections lock: the connections it writes to, none of them closed. */
    method Broadcast(busy: set<nat>) returns (targets: seq<nat>)
      requires Valid()
      ensures forall c :: c in targets <==>
                exists k :: 0 <= k < MAX_CONNS && clients[k] == Client(Some(c), true) && k !in busy
      ensures forall c :: c in targets ==> c < |places| && places[c].InSlot? && c !in closings
      ensures NoRepeats(targets)
    {
      targets := [];
      for k := 0 to MAX_CONNS
        invariant forall c :: c in targets <==>
                  exists j :: 0 <= j < k && clients[j] == Client(Some(c), true) && j !in busy
        invariant NoRepeats(targets)
      {
        var client := clients[k];
        if client.conn.Some? && client.initialized && k !in busy {
          targets := targets + [client.conn.value];
        }
      }
    }

    // -------------------------------------------------------------- stopping

    /** The listener is closed; the accept thread may still hand over one connection. */
    method CloseListener()
      requires Valid() && phase == Serving
      modifies this`phase
      ensures Valid() && phase == ListenerClosed
    {
      phase := ListenerClosed;
    }

    /** The accept thread is joined and every live connection aborted: these are the aborted ones. */
    method AbortAll() returns (aborted: seq<nat>)
      requires Valid() && phase == ListenerClosed
      modifies this`phase
      ensures Valid() && phase == Draining
      ensures forall c :: c in aborted <==> exists k :: 0 <= k < MAX_CONNS && clients[k].conn == Some(c)
      ensures forall c :: c in aborted ==> c !in closings
    {
      aborted := [];
      for k := 0 to MAX_CONNS
        invariant forall c :: c in aborted <==> exists j :: 0 <= j < k && clients[j].conn == Some(c)
      {
        if clients[k].conn.Some? {
          aborted := aborted + [clients[k].conn.value];
        }
      }
      phase := Draining;
    }

    /** The wait for the drained condition is over: stop returns, and no slot is taken. */
    method FinishStop() returns (stopped: bool)
      requires Valid() && phase == Draining
      modifies this`phase
      ensures Valid() && (stopped <==> activeClients == 0)
      ensures stopped ==> phase == Idle && forall k :: 0 <= k < MAX_CONNS ==> clients[k].conn.None?
      ensures stopped ==> forall c :: 0 <= c < |places| ==> places[c] == Closing || c in closings
      ensures !stopped ==> phase == Draining && exists k :: 0 <= k < MAX_CONNS && clients[k].conn.Some?
    {
      stopped := activeClients == 0;
      if stopped {
        forall k | 0 <= k < MAX_CONNS ensures clients[k].conn.None? { NoneTaken(clients, MAX_CONNS, k); }
        phase := Idle;
      } else {
        SomeTaken(clients, MAX_CONNS);
      }
    }
  }

  // ---------------------------------------------------------------- runs

  datatype Event =
    | Start
    | Accept(threadWorks: bool)
    | Initialize(slot: nat)
    | Broadcast(busy: set<nat>)
    | ServeEnds(slot: nat)
    | Close(conn: nat)
    | CloseListener
    | AbortAll
    | TryFinish

  function Initial(): State {
    State(seq(MAX_CONNS, _ => EMPTY), 0, Idle, [], [])
  }

  function Put<T>(s: seq<T>, i: nat, x: T): seq<T> {
    if i < |s| then s[i := x] else s
  }

  /** What an event does; one that cannot happen in this state does nothing. */
  function Next(s: State, e: Event): State {
    match e
    case Start => if s.phase == Idle then s.(phase := Serving) else s
    case Accept(works) =>
      var c, k := |s.places|, EmptyFrom(s.clients, 0);
      if s.phase != Serving && s.phase != ListenerClosed then s
      else if k == |s.clients| || !works then s.(places := s.places + [Closing])
      else s.(clients := s.clients[k := Client(Some(c), false)], activeClients := s.activeClients + 1,
              places := s.places + [InSlot(k)])
    case Initialize(k) =>
      if k < |s.clients| && s.clients[k].conn.Some? then
        s.(clients := s.clients[k := s.clients[k].(initialized := true)])
      else s
    case Broadcast(_) => s
    case ServeEnds(k) =>
      if k < |s.clients| && s.clients[k].conn.Some? then
        s.(clients := s.clients[k := EMPTY], activeClients := s.activeClients - 1,
           places := Put(s.places, s.clients[k].conn.value, Closing))
      else s
    case Close(c) =>
      if c < |s.places| && s.places[c] == Closing then
        s.(places := s.places[c := Closed(|s.closings|)], closings := s.closings + [c])
      else s
    case CloseListener => if s.phase == Serving then s.(phase := ListenerClosed) else s
    case AbortAll => if s.phase == ListenerClosed then s.(phase := Draining) else s
    case TryFinish => if s.phase == Draining && s.activeClients == 0 then s.(phase := Idle) else s
  }

  function After(events: seq<Event>): State {
    if events == [] then Initial() else Next(After(events[..|events| - 1]), events[|events| - 1])
  }

  method AcceptStep(s: Server, works: bool)
    requires s.Valid()
    modifies s
    ensures s.Valid() && s.Now() == Next(old(s.Now()), Accept(works))
  {
    hide Taken, Linked;
    if s.phase == Serving || s.phase == ListenerClosed {
      EmptyIffRoom(s.clients, 0);
      var c, slot := s.Accept(works);
      assert s.places == s.places[..c] + [s.places[c]];
    }
  }

  method Step(s: Server, e: Event)
    requires s.Valid()
    modifies s
    ensures s.Valid() && s.Now() == Next(old(s.Now()), e)
  {
    match e
    case Start => s.Start();
    case Accept(works) => AcceptStep(s, works);
    case Initialize(k) =>
      if k < MAX_CONNS && s.clients[k].conn.Some? { s.MarkInitialized(k); }
    case Broadcast(busy) => var targets := s.Broadcast(busy);
    case ServeEnds(k) =>
      if k < MAX_CONNS && s.clients[k].conn.Some? { var c, drained := s.Unwind(k); }
    case Close(c) =>
      if c < |s.places| && s.places[c] == Closing { s.Close(c); }
    case CloseListener =>
      if s.phase == Serving { s.CloseListener(); }
    case AbortAll =>
      if s.phase == ListenerClosed { var aborted := s.AbortAll(); }
    case TryFinish =>
      if s.phase == Draining { var stopped := s.FinishStop(); }
  }

  /**
   * Any run: the count is that of the taken slots, no connection is closed twice, and once the server
   * has stopped and the ending threads have closed theirs, every connection accepted was closed once.
   */
  method Run(events: seq<Event>) returns (s: Server)
    ensures fresh(s) && s.Valid() && s.Now() == After(events)
    ensures s.activeClients == Taken(s.clients, MAX_CONNS) && NoRepeats(s.closings)
    ensures s.phase == Idle && (forall c :: 0 <= c < |s.places| ==> s.places[c] != Closing) ==>
              forall c: nat :: c in s.closings <==> c < |s.places|
  {
    s := new Server();
    for i := 0 to |events|
      invariant fresh(s) && s.Valid() && s.Now() == After(events[..i])
    {
      Step(s, events[i]);
      assert events[..i + 1][..i] == events[..i];
    }
    assert events[..|events|] == events;
    if s.phase == Idle {
      forall k | 0 <= k < MAX_CONNS ensures s.clients[k].conn.None? { NoneTaken(s.clients, MAX_CONNS, k); }
      if forall c :: 0 <= c < |s.places| ==> s.places[c] != Closing {
        forall c: nat ensures c in s.closings <==> c < |s.places| {
          if c < |s.places| { assert s.places[c].Closed?; }
        }
      }
    }
  }

  lemma {:induction false} NothingYet(clients: seq<Client>, n: nat)
    requires n <= |clients| && forall k :: 0 <= k < |clients| ==> clients[k] == EMPTY
    ensures Taken(clients, n) == 0
  {
    if n > 0 { NothingYet(clients, n - 1); }
  }

  lemma {:induction false} SomeTaken(clients: seq<Client>, n: nat)
    requires n <= |clients| && Taken(clients, n) > 0
    ensures exists k :: 0 <= k < n && clients[k].conn.Some?
  {
    if clients[n - 1].conn.None? { SomeTaken(clients, n - 1); }
  }

  /** There is an empty slot exactly if fewer than all are taken. */
  lemma {:induction false} EmptyIffRoom(clients: seq<Client>, i: nat)
    requires i <= |clients|
    ensures EmptyFrom(clients, i) == |clients| <==> Taken(clients, |clients|) - Taken(clients, i) == |clients| - i
    decreases |clients| - i
  {
    if i < |clients| {
      TakenStep(clients, i + 1, |clients|);
      EmptyIffRoom(clients, i + 1);
    }
  }

  lemma {:induction false} TakenStep(clients: seq<Client>, a: nat, b: nat)
    requires a <= b <= |clients|
    ensures Taken(clients, a) <= Taken(clients, b) <= Taken(clients, a) + b - a
  {
    if a < b { TakenStep(clients, a, b - 1); }
  }
}
