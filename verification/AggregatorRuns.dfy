/** Runs of the aggregator: any sequence of steps, in any interleaving of its threads. */
module AggregatorRuns {
  import opened Aggregator
  import opened AggregatorState
  import opened Bytes
  import opened JsonText
  import N = AppNames
  import Rpc

  /** One lock-held region or one write, with what the threads, the backends and the system make of it. */
  datatype Event =
    | AgentCall(name: Option<bytes>, arguments: Option<Json>, id: Json, listing: Json, writeWorks: bool)
    | AgentInitialized
    | Writes(write: Write)
    | ToolsChanged(idx: nat, writeWorks: bool)
    | Response(idx: nat, localId: nat, message: Json)
    | ToolsFetched(idx: nat, tools: Option<Json>, appId: Option<bytes>)
    | BackendGone(idx: nat, meanwhile: seq<seq<Write>>)
    | Polled(pids: seq<int>, self: int)
    | HandshakeDone(isShell: bool, pid: int, ownId: bytes, exe: bytes, tools: Option<Json>, threadWorks: bool)
    | HandshakeFailed(isShell: bool, pid: int)
    | SetupOver(isShell: bool, pid: int)

  /** A response is honest if a request with its id was written to the connection it comes from. */
  ghost predicate Honest(g: Aggregator, e: Event)
    reads g
  {
    e.Response? && e.idx < |g.backends| ==> WasSent(Heard(ConnOf(g.backends[e.idx]), e.localId), g.sent)
  }

  /** The response an event brings, if a reader is there to read it. */
  ghost function Hears(g: Aggregator, e: Event): seq<Heard>
    reads g
  {
    if e.Response? && e.idx < |g.reading| && g.reading[e.idx] && e.idx < |g.backends|
       && Rpc.RespondsTo(e.message, e.localId)
    then [Heard(ConnOf(g.backends[e.idx]), e.localId)]
    else []
  }

  /** The tool calls an event brings: their ids, in the order of the events, number the calls of a run. */
  function Asks(e: Event): seq<Json> {
    if e.AgentCall? && Rpc.IdOf(e.listing) == Some(e.id) then [e.id] else []
  }

  function Asked(events: seq<Event>): seq<Json> {
    if events == [] then [] else Asked(events[..|events| - 1]) + Asks(events[|events| - 1])
  }

  /** Calls were lost only after a response under an id issued for another connection. */
  ghost predicate Explained(g: Aggregator)
    reads g
  {
    g.crossed != {} ==> exists i :: 0 <= i < |g.heard| && Misplaced(g.heard[i], g.issued)
  }

  /** Steps of the agent's thread. */
  method AgentStep(g: Aggregator, e: Event)
    requires g.Calls() && g.Requested()
    modifies g`framingLatched, g`asked, g`fate, g`inflight, g`nextLocalId, g`issued, g`crossed, g`agentInitialized,
             g`sent, g`requests
    ensures g.Calls() && g.Requested() && g.asked == old(g.asked) + Asks(e) && g.crossed == old(g.crossed)
    ensures old(g.issued) <= g.issued
  {
    if e.AgentCall? && Rpc.IdOf(e.listing) == Some(e.id) {
      g.CallTool(e.name, e.arguments, e.id, e.listing, e.writeWorks);
    } else if e.AgentInitialized? && g.framingLatched {
      g.MarkInitialized();
    }
  }

  /** What a backend's reader does with a message; a slot has a reader as long as it is taken. */
  method ReaderStep(g: Aggregator, e: Event)
    requires g.Calls() && g.Requested() && g.reading == Live(g.backends)
    modifies g`inflight, g`nextLocalId, g`issued, g`fate, g`crossed, g`sent, g`heard
    ensures g.Calls() && g.Requested() && old(g.crossed) <= g.crossed
    ensures old(Honest(g, e)) ==> g.crossed == old(g.crossed)
    ensures old(g.issued) <= g.issued && g.heard == old(g.heard) + old(Hears(g, e))
    ensures g.crossed != old(g.crossed) ==>
              |g.heard| > |old(g.heard)| && Misplaced(g.heard[|g.heard| - 1], g.issued)
  {
    assert g.heard + [] == g.heard;
    if e.ToolsChanged? && e.idx < |g.reading| && g.reading[e.idx] {
      g.RefreshTools(e.idx, e.writeWorks);
    } else if e.Response? && e.idx < |g.reading| && g.reading[e.idx] && Rpc.RespondsTo(e.message, e.localId) {
      assert Hears(g, e) == [Heard(ConnOf(g.backends[e.idx]), e.localId)];
      LiveChanged(g.backends, e.idx, Vacant);
      if Honest(g, e) { g.HonestAnswer(e.idx, e.localId); }
      var refreshed := g.Receive(e.idx, e.localId, e.message);
    }
  }

  /** What a backend's reader does to its slot. */
  method SlotStep(g: Aggregator, e: Event)
    requires g.Valid()
    modifies g`inflight, g`fate, g`crossed, g`stdout, g`framingLatched, g`backends, g`reading, g`seat, g`shellSeat,
             g`usedPrefixes, g`namings, g`slugs
    ensures g.Valid() && old(g.stdout) <= g.stdout && g.crossed == old(g.crossed)
  {
    hide Aggregator.Calls, Aggregator.Members, Aggregator.Labelled, Aggregator.Named, Aggregator.Requested;
    if e.ToolsFetched? && e.idx < |g.reading| && g.reading[e.idx] {
      var prefix := g.ApplyTools(e.idx, e.tools, e.appId);
    } else if e.BackendGone? && e.idx < |g.reading| && g.reading[e.idx] {
      ghost var told := g.ReaderGone(e.idx, e.meanwhile);
    }
  }

  /** The steps of a setup thread after its handshake. */
  method SetupStep(g: Aggregator, e: Event)
    requires g.Members()
    modifies g`setups, g`shellSetup, g`connecting, g`shellConnecting
    ensures g.Members()
  {
    if e.HandshakeFailed? && g.InPhase(e.isShell, e.pid, Handshaking) {
      g.EndHandshake(e.isShell, e.pid);
    } else if e.SetupOver? && g.InPhase(e.isShell, e.pid, Finishing) {
      g.ConnectingRemove(e.isShell, e.pid);
    }
  }

  method RegisterStep(g: Aggregator, e: Event)
    requires g.Calls() && g.Members() && g.Labelled() && g.Named() && e.HandshakeDone?
    modifies g`backends, g`reading, g`seat, g`shellSeat, g`homes, g`setups, g`shellSetup, g`usedPrefixes, g`namings,
             g`slugs
    ensures g.Calls() && g.Members() && g.Labelled() && g.Named()
  {
    if g.InPhase(e.isShell, e.pid, Handshaking) {
      var k, slug, prefix := g.Register(e.isShell, e.pid, e.ownId, e.exe, e.tools, e.threadWorks);
    }
  }

  /** Steps of the poll thread and of the setup threads it starts. */
  method MembershipStep(g: Aggregator, e: Event)
    requires g.Valid()
    modifies g`backends, g`reading, g`seat, g`shellSeat, g`homes, g`setups, g`shellSetup, g`usedPrefixes, g`namings,
             g`slugs, g`connecting, g`shellConnecting
    ensures g.Valid()
  {
    hide Aggregator.Calls, Aggregator.Members, Aggregator.Labelled, Aggregator.Named;
    if e.Polled? {
      var started, tryShell := g.Poll(e.pids, e.self);
    } else if e.HandshakeDone? {
      RegisterStep(g, e);
    } else {
      SetupStep(g, e);
    }
  }

  /** Steps on the slots, of readers and of setups. */
  method BackendStep(g: Aggregator, e: Event)
    requires g.Valid()
    modifies g`inflight, g`fate, g`crossed, g`stdout, g`framingLatched, g`backends, g`reading, g`seat, g`shellSeat,
             g`homes, g`setups, g`shellSetup, g`usedPrefixes, g`namings, g`slugs, g`connecting, g`shellConnecting
    ensures g.Valid() && old(g.stdout) <= g.stdout && g.crossed == old(g.crossed)
  {
    if e.ToolsFetched? || e.BackendGone? {
      SlotStep(g, e);
    } else {
      MembershipStep(g, e);
    }
  }

  /** Steps on the calls and the in-flight table. */
  method CallStep(g: Aggregator, e: Event)
    requires g.Calls() && g.Requested() && g.reading == Live(g.backends)
    modifies g`framingLatched, g`asked, g`fate, g`inflight, g`nextLocalId, g`issued, g`crossed, g`stdout,
             g`agentInitialized, g`sent, g`requests, g`heard
    ensures g.Calls() && g.Requested() && g.asked == old(g.asked) + Asks(e)
    ensures old(g.stdout) <= g.stdout && old(g.crossed) <= g.crossed
    ensures old(Honest(g, e)) ==> g.crossed == old(g.crossed)
    ensures old(g.issued) <= g.issued && g.heard == old(g.heard) + old(Hears(g, e))
    ensures g.crossed != old(g.crossed) ==>
              |g.heard| > |old(g.heard)| && Misplaced(g.heard[|g.heard| - 1], g.issued)
  {
    assert g.asked + [] == g.asked && g.heard + [] == g.heard;
    if e.AgentCall? || e.AgentInitialized? {
      AgentStep(g, e);
    } else if e.Writes? {
      g.WriteOne(e.write);
    } else {
      ReaderStep(g, e);
    }
  }

  predicate AboutCalls(e: Event) {
    e.AgentCall? || e.AgentInitialized? || e.Writes? || e.ToolsChanged? || e.Response?
  }

  lemma ReadersAreLive(g: Aggregator)
    requires g.Members()
    ensures g.reading == Live(g.backends)
  {
  }

  method Step(g: Aggregator, e: Event)
    requires g.Valid()
    modifies g
    ensures g.Valid() && g.asked == old(g.asked) + Asks(e)
    ensures old(g.stdout) <= g.stdout && old(g.crossed) <= g.crossed
    ensures old(Honest(g, e)) ==> g.crossed == old(g.crossed)
    ensures old(g.issued) <= g.issued && g.heard == old(g.heard) + old(Hears(g, e))
    ensures g.crossed != old(g.crossed) ==>
              |g.heard| > |old(g.heard)| && Misplaced(g.heard[|g.heard| - 1], g.issued)
  {
    hide Aggregator.Calls, Aggregator.Members, Aggregator.Labelled, Aggregator.Named, Aggregator.Requested;
    hide Misplaced, Honest, WasSent;
    assert g.asked + [] == g.asked && g.heard + [] == g.heard;
    ReadersAreLive(g);
    if AboutCalls(e) {
      CallStep(g, e);
    } else {
      BackendStep(g, e);
    }
  }

  lemma StaysExplained(before: seq<Heard>, issued: seq<Issue>, after: seq<Heard>, issued': seq<Issue>)
    requires before <= after && issued <= issued'
    requires exists i :: 0 <= i < |before| && Misplaced(before[i], issued)
    ensures exists i :: 0 <= i < |after| && Misplaced(after[i], issued')
  {
    var i :| 0 <= i < |before| && Misplaced(before[i], issued);
    assert Misplaced(after[i], issued');
  }

  /**
   * Any run from the start: every call the agent made is in flight, about to be answered, answered or lost,
   * and none is lost if every response came from a connection that a request with its id was written to.
   */
  method Run(exposeDiagnostics: bool, events: seq<Event>) returns (g: Aggregator)
    ensures fresh(g) && g.Valid() && g.asked == Asked(events)
    ensures |g.asked| == |CallsIn(g.inflight)| + |ReadyIn(g.fate)| + |AnswersIn(g.stdout)| + |g.crossed|
    ensures (forall i :: 0 <= i < |g.heard| ==> WasSent(g.heard[i], g.sent)) ==> g.crossed == {}
  {
    hide Aggregator.Calls, Aggregator.Members, Aggregator.Labelled, Aggregator.Named, Aggregator.Requested;
    hide Misplaced, WasSent, Asks, Hears;
    g := new Aggregator(exposeDiagnostics);
    for i := 0 to |events|
      invariant fresh(g) && g.Valid() && Explained(g) && g.asked == Asked(events[..i])
    {
      ghost var heard, issued, crossed := g.heard, g.issued, g.crossed;
      Step(g, events[i]);
      assert events[..i + 1][..i] == events[..i];
      if crossed != {} && g.crossed == crossed { StaysExplained(heard, issued, g.heard, g.issued); }
    }
    assert events[..|events|] == events;
    Conserved(g);
    if forall i :: 0 <= i < |g.heard| ==> WasSent(g.heard[i], g.sent) { NoneMisplaced(g); }
  }

  lemma Conserved(g: Aggregator)
    requires g.Calls()
    ensures |g.asked| == |CallsIn(g.inflight)| + |ReadyIn(g.fate)| + |AnswersIn(g.stdout)| + |g.crossed|
  {
    Conservation(g.inflight, g.asked, g.stdout, g.fate, g.crossed);
  }

  lemma NoneMisplaced(g: Aggregator)
    requires g.Calls() && forall i :: 0 <= i < |g.heard| ==> WasSent(g.heard[i], g.sent)
    ensures forall i :: 0 <= i < |g.heard| ==> !Misplaced(g.heard[i], g.issued)
  {
    forall i | 0 <= i < |g.heard| ensures !Misplaced(g.heard[i], g.issued) {
      SentIsPlaced(g.heard[i], g.sent, g.issued);
    }
  }

  /** After any run, the answers the agent got are to different calls and carry their ids. */
  method RunAnswersOnce(exposeDiagnostics: bool, events: seq<Event>, k: nat, l: nat) returns (g: Aggregator)
    ensures k < l < |g.stdout| && g.stdout[k].Answer? && g.stdout[l].Answer? ==>
              && g.stdout[k].ticket != g.stdout[l].ticket
              && g.stdout[k].ticket < |g.asked|
              && Rpc.IdOf(g.stdout[k].message) == Some(g.asked[g.stdout[k].ticket])
  {
    g := Run(exposeDiagnostics, events);
    if k < l < |g.stdout| && g.stdout[k].Answer? && g.stdout[l].Answer? {
      AnsweredOnce(g.inflight, g.asked, g.stdout, g.fate, g.crossed, k, l);
    }
  }

  /** Over any run, no two requests to backends carry the same local id. */
  method RunSendsOnce(exposeDiagnostics: bool, events: seq<Event>, i: nat, j: nat) returns (g: Aggregator)
    ensures i < j < |g.sent| ==>
              && g.sent[i].localId < g.sent[j].localId
              && Rpc.IdOf(g.sent[i].request) == Some(Number(g.sent[i].localId))
              && Rpc.IdOf(g.sent[j].request) == Some(Number(g.sent[j].localId))
  {
    g := Run(exposeDiagnostics, events);
    if i < j < |g.sent| {
      SentOnce(g.sent, g.issued, i, j);
    }
  }

  predicate IsApp(s: Slot) {
    s.Taken? && !s.isShell
  }

  /**
   * Over any run: the prefixes given to apps are pairwise different exactly if no assignment met the
   * condition for reuse, as none does while candidates and the registry last, or among the first 99.
   */
  method RunNamesApart(exposeDiagnostics: bool, events: seq<Event>) returns (g: Aggregator)
    ensures g.Valid() && (NoRepeats(Names(g.namings)) <==> N.NeverReused(g.slugs))
    ensures N.AlwaysReserved(g.slugs) || |g.slugs| <= N.LAST_SUFFIX ==> N.NeverReused(g.slugs)
    ensures N.NeverReused(g.slugs) ==>
              forall i, j :: 0 <= i < j < |g.backends| && IsApp(g.backends[i]) && IsApp(g.backends[j]) ==>
                g.backends[i].prefix != g.backends[j].prefix
  {
    g := Run(exposeDiagnostics, events);
    N.NamesApartIff(g.slugs);
    N.ApartWhileReserved(g.slugs);
    if N.NeverReused(g.slugs) {
      forall i, j | 0 <= i < j < |g.backends| && IsApp(g.backends[i]) && IsApp(g.backends[j])
        ensures g.backends[i].prefix != g.backends[j].prefix
      {
        if g.backends[i].prefix == g.backends[j].prefix { LiveNamesDiffer(g.backends, g.namings, i, j); }
      }
    }
  }

  lemma {:induction false} EntryOfId(g: Aggregator, at: nat, i: nat)
    requires g.Calls() && i <= at < |g.inflight| && !g.inflight[at].Free?
    ensures EntryFrom(g.inflight, g.inflight[at].id, i) == at
    decreases at - i
  {
    if i < at {
      if !g.inflight[i].Free? && g.inflight[i].id == g.inflight[at].id {
        IdsAreDistinct(g.inflight, g.backends, g.issued, i, at);
      }
      EntryOfId(g, at, i + 1);
    }
  }

  /**
   * The exact exception to "never left hanging": any call in flight is lost as soon as another
   * backend answers its local id, and only then does an answer lose a call.
   */
  method AnswerTo(g: Aggregator, at: nat, j: nat, message: Json)
    requires g.Calls() && at < |g.inflight| && g.Requested() && g.inflight[at].Call? && j < |g.backends|
             && Rpc.RespondsTo(message, g.inflight[at].id)
    modifies g`inflight, g`fate, g`crossed, g`heard
    ensures g.Calls() && old(g.inflight[at].ticket) < |g.fate|
    ensures g.fate[old(g.inflight[at].ticket)].Lost? <==> old(g.inflight[at].slot) != j
  {
    EntryOfId(g, at, 0);
    var refreshed := g.Receive(j, g.inflight[at].id, message);
  }

  // ---------------------------------------------------------------- two runs

  /** "t" */
  const TOOL: bytes := [0x74]

  /** Nothing has happened yet but a poll that found these processes; setups for them and the shell are under way. */
  method Found(pids: seq<int>, self: int) returns (g: Aggregator)
    requires |pids| < MAX_BACKENDS && self !in pids
    ensures fresh(g) && g.Valid() && g.inflight == seq(MAX_INFLIGHT, _ => Free) && |g.backends| == MAX_BACKENDS
    ensures g.asked == [] && g.fate == [] && g.crossed == {} && g.heard == [] && g.stdout == [] && g.nextLocalId == 0
    ensures g.usedPrefixes == [] && forall i :: 0 <= i < |g.backends| ==> g.backends[i] == Vacant
    ensures g.InPhase(true, 0, Handshaking) && forall p :: p in pids ==> g.InPhase(false, p, Handshaking)
  {
    hide Aggregator.Calls, Aggregator.Members, Aggregator.Labelled, Aggregator.Named, Aggregator.Requested;
    g := new Aggregator(false);
    var started, tryShell := g.Poll(pids, self);
    assert g.connecting == started;
    forall p | p in pids ensures g.InPhase(false, p, Handshaking) {
      var k :| 0 <= k < |pids| && pids[k] == p;
      assert p in g.connecting;
    }
    assert g.inflight == seq(MAX_INFLIGHT, _ => Free);
  }

  /** The handshake with a backend works out, and so does starting its reader: it takes the first vacant slot. */
  method Joins(g: Aggregator, isShell: bool, pid: int, appId: bytes) returns (k: nat)
    requires g.Valid() && g.InPhase(isShell, pid, Handshaking)
    requires |g.backends| == MAX_BACKENDS && VacantFrom(g.backends, 0) < MAX_BACKENDS
    modifies g`backends, g`reading, g`seat, g`shellSeat, g`homes, g`setups, g`shellSetup, g`usedPrefixes, g`namings,
             g`slugs
    ensures g.Valid() && |g.backends| == MAX_BACKENDS && k == VacantFrom(old(g.backends), 0)
    ensures g.backends == old(g.backends)[k := g.backends[k]]
    ensures g.backends[k].Taken? && g.backends[k].isShell == isShell && g.backends[k].pid == pid
    ensures g.backends[k].prefix ==
            if isShell then SHELL else N.Assigned(old(g.usedPrefixes), Desired(Short(appId), []))
    ensures g.usedPrefixes == if isShell then old(g.usedPrefixes)
                              else N.Registered(old(g.usedPrefixes), Desired(Short(appId), []))
    ensures forall p :: (isShell || p != pid) && old(g.InPhase(false, p, Handshaking)) ==>
              g.InPhase(false, p, Handshaking)
  {
    hide Aggregator.Calls, Aggregator.Members, Aggregator.Labelled, Aggregator.Named, Aggregator.Requested;
    hide N.Assigned, N.Registered, Desired;
    var slug, prefix;
    k, slug, prefix := g.Register(isShell, pid, appId, [], None, true);
  }

  method TwoApps(p: int, q: int, self: int, first: bytes, second: bytes) returns (g: Aggregator)
    requires p != q && self !in {p, q}
    ensures fresh(g) && g.Valid() && g.inflight == seq(MAX_INFLIGHT, _ => Free) && |g.backends| == MAX_BACKENDS
    ensures g.asked == [] && g.fate == [] && g.crossed == {} && g.heard == [] && g.stdout == [] && g.nextLocalId == 0
    ensures g.backends[0].Taken? && g.backends[0].pid == p && g.backends[1].Taken? && g.backends[1].pid == q
  {
    hide Aggregator.Calls, Aggregator.Members, Aggregator.Labelled, Aggregator.Named, Aggregator.Requested;
    hide N.Assigned, N.Registered, Desired, Short;
    g := Found([p, q], self);
    var k := Joins(g, false, p, first);
    var l := Joins(g, false, q, second);
    assert k == 0 && VacantFrom(g.backends, 1) >= 1 && l == 1;
  }

  /**
   * A call does get lost: two apps, one call of a tool of the first, and a response under its id from the
   * second. Whatever the apps are called and the messages say.
   */
  method CallIsLost(
      p: int, q: int, self: int, first: bytes, second: bytes, arguments: Option<Json>, id: Json, listing: Json,
      message: Json)
    returns (g: Aggregator)
    requires p != q && self !in {p, q} && Rpc.IdOf(listing) == Some(id) && Rpc.RespondsTo(message, 1)
    ensures g.Valid() && g.asked == [id] && g.fate == [Lost] && g.crossed == {0} && g.stdout == []
    ensures |g.heard| == 1 && !WasSent(g.heard[0], g.sent)
  {
    hide Aggregator.Calls, Aggregator.Members, Aggregator.Labelled, Aggregator.Named, Aggregator.Requested;
    hide WasSent;
    g := TwoApps(p, q, self, first, second);
    CallsTool(g, arguments, id, listing);
    Crosses(g, message, id);
  }

  lemma FirstToolRoutes(g: Aggregator)
    requires g.Valid() && |g.backends| > 0 && g.backends[0].Taken? && |g.inflight| > 0 && g.inflight[0].Free?
    ensures VerdictOf(g.backends, g.inflight, Some(N.ListedName(g.backends[0].prefix, TOOL))) == Forwarded(0, TOOL, 0)
  {
    NamedBelowIff(g.backends, g.namings, |g.backends|);
    assert SlotNameOk(g.backends[0], 0, g.namings);
    hide VerdictOf, N.ListedName, SlotNamesOk;
    ToolIsRouted(g.backends[0].prefix);
    g.ListedToolRoutes(0, TOOL);
    assert FreeFrom(g.inflight, 0) == 0;
  }

  /** The agent calls the tool of slot 0, as the first call of all. */
  method CallsTool(g: Aggregator, arguments: Option<Json>, id: Json, listing: Json)
    requires g.Valid() && g.inflight == seq(MAX_INFLIGHT, _ => Free) && g.nextLocalId == 0
    requires g.asked == [] && g.fate == [] && |g.backends| > 0 && g.backends[0].Taken? && Rpc.IdOf(listing) == Some(id)
    modifies g`framingLatched, g`asked, g`fate, g`inflight, g`nextLocalId, g`issued, g`crossed, g`sent, g`requests
    ensures g.Valid() && g.asked == [id] && g.fate == [Waiting(0)] && g.crossed == old(g.crossed)
    ensures |g.inflight| == MAX_INFLIGHT && g.inflight[0] == Call(1, 0, id, 0)
  {
    hide Aggregator.Members, Aggregator.Labelled, Aggregator.Named, Aggregator.Requested;
    hide TableOk, FatesOk, SentOk, HomesOk, VerdictOf, N.ListedName;
    FirstToolRoutes(g);
    g.CallTool(Some(N.ListedName(g.backends[0].prefix, TOOL)), arguments, id, listing, true);
  }

  /** The response to it is read from slot 1. */
  method Crosses(g: Aggregator, message: Json, id: Json)
    requires g.Valid() && |g.inflight| == MAX_INFLIGHT && g.inflight[0] == Call(1, 0, id, 0)
    requires g.fate == [Waiting(0)] && g.crossed == {} && g.heard == [] && |g.backends| > 1
    requires Rpc.RespondsTo(message, 1)
    modifies g`inflight, g`fate, g`crossed, g`heard
    ensures g.Valid() && g.fate == [Lost] && g.crossed == {0} && |g.heard| == 1 && !WasSent(g.heard[0], g.sent)
  {
    hide TableOk, FatesOk, SentOk, HomesOk, SeatsOk, SetupsOk, SlotNamesOk, CallsSent, Misplaced, WasSent;
    assert EntryFrom(g.inflight, 1, 0) == 0;
    var refreshed := g.Receive(1, 1, message);
    if WasSent(g.heard[0], g.sent) { SentIsPlaced(g.heard[0], g.sent, g.issued); }
  }

  lemma ToolIsRouted(prefix: bytes)
    requires N.PrefixText(prefix)
    ensures |prefix| + 2 + |TOOL| <= N.NAME_LIMIT && prefix + N.SEPARATOR + TOOL != N.LIST_APPS
  {
    var name := prefix + N.SEPARATOR + TOOL;
    assert name[|name| - 1] == TOOL[0] && N.LIST_APPS[|N.LIST_APPS| - 1] != TOOL[0];
  }

  /** An app that calls itself like the shell, beside the shell: its tools are listed and never reached. */
  method ShellBesideShell(shell: int, p: int, self: int) returns (g: Aggregator)
    requires p != self
    ensures fresh(g) && g.Valid() && |g.backends| == MAX_BACKENDS
    ensures g.backends[0].Taken? && g.backends[0].isShell && g.backends[0].prefix == SHELL
    ensures g.backends[1].Taken? && !g.backends[1].isShell && g.backends[1].prefix == SHELL
    ensures !g.OwnsPrefix(1) && PickFrom(g.backends, g.backends[1].prefix, 0) == 0
  {
    hide Aggregator.Calls, Aggregator.Members, Aggregator.Labelled, Aggregator.Named, Aggregator.Requested;
    g := Found([p], self);
    var k := Joins(g, true, shell, []);
    var l := Joins(g, false, p, SHELL);
    assert k == 0 && VacantFrom(g.backends, 1) >= 1 && l == 1;
    ShellIsItsSlug();
  }

  lemma ShellIsItsSlug()
    ensures Desired(Short(SHELL), []) == SHELL && N.Assigned([], SHELL) == SHELL
  {
    N.SlugKeeps(SHELL, 0);
    assert SHELL[..0] == [] && N.Slug(SHELL) == SHELL;
    assert N.Candidate(SHELL, 1) !in [];
  }
}
