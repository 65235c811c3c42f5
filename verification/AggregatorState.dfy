/** The aggregator's tables, their bookkeeping, and what every lock-held step keeps true of them. */
module AggregatorState {
  import opened Bytes
  import opened JsonText
  import N = AppNames
  import Rpc

  const MAX_BACKENDS: nat := 32
  const MAX_INFLIGHT: nat := 128
  /** "shell" */
  const SHELL: bytes := [0x73, 0x68, 0x65, 0x6C, 0x6C]

  /** A backend slot; `conn` and `naming` number its connection and its name among all of the run. */
  datatype Slot =
    | Vacant
    | Taken(isShell: bool, pid: int, prefix: bytes, appId: bytes, tools: seq<Json>, conn: nat, naming: nat)

  /** An in-flight request; `ticket` numbers the agent's calls. */
  datatype Entry =
    | Free
    | Call(id: nat, slot: nat, origId: Json, ticket: nat)
    | Refresh(id: nat, slot: nat)

  datatype Out = Answer(ticket: nat, message: Json) | Reply(message: Json) | ListChanged

  /** What a local id was issued for: the connection, the call if it is one, and the table entry. */
  datatype Issue = Issue(conn: nat, ticket: Option<nat>, at: nat)

  /** A request written to a backend's connection, and the local id in it. */
  datatype Sent = Sent(conn: nat, localId: nat, request: Json)

  /** What the agent asked a tool call for. */
  datatype Request = Request(name: Option<bytes>, arguments: Option<Json>)

  /** A response: the connection it was read from, if its slot has one, and the local id in it. */
  datatype Heard = Heard(conn: Option<nat>, localId: nat)

  /** A write to the agent by some thread: an answer it holds, a notification, a reply of the agent's own thread. */
  datatype Write = Held(ticket: nat) | Notice | Own(message: Json)

  /** Where an agent call stands: in the table, answered but not yet written, written, or lost. */
  datatype Fate = Waiting(at: nat) | Ready(message: Json) | Written(position: nat) | Lost

  /** A setup thread before and after its attempt to register the backend. */
  datatype Phase = Handshaking | Finishing

  // ---------------------------------------------------------------- in-flight table

  function TicketOf(e: Entry): Option<nat> {
    if e.Call? then Some(e.ticket) else None
  }

  /** A used entry belongs to a taken slot's present connection, and its id was issued for it. */
  ghost predicate EntryOk(table: seq<Entry>, slots: seq<Slot>, issued: seq<Issue>, i: nat)
    requires i < |table| && !table[i].Free?
  {
    var e := table[i];
    && 1 <= e.id <= |issued|
    && e.slot < |slots| && slots[e.slot].Taken?
    && issued[e.id - 1] == Issue(slots[e.slot].conn, TicketOf(e), i)
  }

  /** The first `n` entries are in order. */
  ghost predicate EntriesOk(table: seq<Entry>, slots: seq<Slot>, issued: seq<Issue>, n: nat)
    requires n <= |table|
  {
    n == 0 || (EntriesOk(table, slots, issued, n - 1) && (table[n - 1].Free? || EntryOk(table, slots, issued, n - 1)))
  }

  ghost predicate TableOk(table: seq<Entry>, slots: seq<Slot>, issued: seq<Issue>) {
    EntriesOk(table, slots, issued, |table|)
  }

  lemma {:induction false} EntryIsOk(table: seq<Entry>, slots: seq<Slot>, issued: seq<Issue>, n: nat, i: nat)
    requires i < n <= |table| && EntriesOk(table, slots, issued, n) && !table[i].Free?
    ensures EntryOk(table, slots, issued, i)
  {
    if i < n - 1 { EntryIsOk(table, slots, issued, n - 1, i); }
  }

  lemma {:induction false} EntriesAreOk(table: seq<Entry>, slots: seq<Slot>, issued: seq<Issue>, n: nat)
    requires n <= |table| && forall i :: 0 <= i < n && !table[i].Free? ==> EntryOk(table, slots, issued, i)
    ensures EntriesOk(table, slots, issued, n)
  {
    if n > 0 { EntriesAreOk(table, slots, issued, n - 1); }
  }

  /** In-flight ids are distinct. */
  lemma IdsAreDistinct(table: seq<Entry>, slots: seq<Slot>, issued: seq<Issue>, i: nat, j: nat)
    requires TableOk(table, slots, issued) && i < |table| && j < |table| && !table[i].Free? && !table[j].Free?
    requires table[i].id == table[j].id
    ensures i == j
  {
    EntryIsOk(table, slots, issued, |table|, i);
    EntryIsOk(table, slots, issued, |table|, j);
  }

  // ---------------------------------------------------------------- requests written

  /** The request carries its local id, which was issued for its connection. */
  ghost predicate SentRight(s: Sent, issued: seq<Issue>) {
    1 <= s.localId <= |issued| && issued[s.localId - 1].conn == s.conn && Rpc.IdOf(s.request) == Some(Number(s.localId))
  }

  /** The first `n` requests written carry their own, ever higher local ids. */
  ghost predicate SentBelow(sent: seq<Sent>, issued: seq<Issue>, n: nat)
    requires n <= |sent|
  {
    n == 0 || (SentBelow(sent, issued, n - 1) && SentRight(sent[n - 1], issued)
               && (n > 1 ==> sent[n - 2].localId < sent[n - 1].localId))
  }

  ghost predicate SentOk(sent: seq<Sent>, issued: seq<Issue>) {
    SentBelow(sent, issued, |sent|)
  }

  lemma {:induction false} SentKept(sent: seq<Sent>, issued: seq<Issue>, more: seq<Sent>, next: Issue, n: nat)
    requires n <= |sent| && SentBelow(sent, issued, n)
    ensures SentBelow(sent + more, issued + [next], n)
  {
    if n > 0 { SentKept(sent, issued, more, next, n - 1); }
  }

  /** A local id is issued, and the request for it written or not. */
  lemma SentGrows(sent: seq<Sent>, issued: seq<Issue>, next: Issue, s: Sent)
    requires SentOk(sent, issued)
    ensures SentOk(sent, issued + [next])
    ensures s.conn == next.conn && s.localId == |issued| + 1 && Rpc.IdOf(s.request) == Some(Number(s.localId)) ==>
              SentOk(sent + [s], issued + [next])
  {
    SentKept(sent, issued, [], next, |sent|);
    SentKept(sent, issued, [s], next, |sent|);
    assert sent + [] == sent;
  }

  /** No local id is ever sent twice, to whatever connection, and each was issued for the one it is sent on. */
  lemma {:induction false} SentOnce(sent: seq<Sent>, issued: seq<Issue>, i: nat, j: nat)
    requires i < j < |sent| && SentOk(sent, issued)
    ensures SentRight(sent[i], issued) && SentRight(sent[j], issued) && sent[i].localId < sent[j].localId
  {
    SentUpTo(sent, issued, |sent|, j);
    SentIncreases(sent, issued, i, j);
  }

  lemma {:induction false} SentUpTo(sent: seq<Sent>, issued: seq<Issue>, n: nat, k: nat)
    requires k < n <= |sent| && SentBelow(sent, issued, n)
    ensures SentBelow(sent, issued, k + 1)
  {
    if k < n - 1 { SentUpTo(sent, issued, n - 1, k); }
  }

  lemma {:induction false} SentIncreases(sent: seq<Sent>, issued: seq<Issue>, i: nat, j: nat)
    requires i < j < |sent| && SentBelow(sent, issued, j + 1)
    ensures SentRight(sent[i], issued) && sent[i].localId < sent[j].localId
  {
    assert SentBelow(sent, issued, j);
    if i < j - 1 { SentIncreases(sent, issued, i, j - 1); }
  }

  /** The local id heard was issued for another connection. */
  ghost predicate Misplaced(h: Heard, issued: seq<Issue>) {
    1 <= h.localId <= |issued| && Some(issued[h.localId - 1].conn) != h.conn
  }

  /** Some request with this local id was written to the connection it was heard from. */
  ghost predicate WasSent(h: Heard, sent: seq<Sent>) {
    exists j :: 0 <= j < |sent| && sent[j].localId == h.localId && Some(sent[j].conn) == h.conn
  }

  /** A response to a request that was written to its connection is not misplaced. */
  lemma SentIsPlaced(h: Heard, sent: seq<Sent>, issued: seq<Issue>)
    requires SentOk(sent, issued) && WasSent(h, sent)
    ensures !Misplaced(h, issued)
  {
    var j :| 0 <= j < |sent| && sent[j].localId == h.localId && Some(sent[j].conn) == h.conn;
    SentUpTo(sent, issued, |sent|, j);
  }

  /** The tool the agent's request is for, if its name has the form of one. */
  function ToolOf(r: Request): Option<bytes> {
    if r.name.Some? && N.RouteOf(r.name.value).To? then Some(N.RouteOf(r.name.value).tool) else None
  }

  /** The request for the call in this entry was written to the connection its id was issued for. */
  ghost predicate EntrySent(e: Entry, issued: seq<Issue>, requests: seq<Request>, sent: seq<Sent>) {
    e.Call? ==>
      && 1 <= e.id <= |issued| && e.ticket < |requests| && ToolOf(requests[e.ticket]).Some?
      && Sent(issued[e.id - 1].conn, e.id,
              Rpc.CallRequest(e.id, ToolOf(requests[e.ticket]).value, requests[e.ticket].arguments)) in sent
  }

  ghost predicate CallsSent(table: seq<Entry>, issued: seq<Issue>, requests: seq<Request>, sent: seq<Sent>, n: nat)
    requires n <= |table|
  {
    n == 0 || (CallsSent(table, issued, requests, sent, n - 1) && EntrySent(table[n - 1], issued, requests, sent))
  }

  lemma {:induction false} CallIsSent(table: seq<Entry>, issued: seq<Issue>, requests: seq<Request>, sent: seq<Sent>,
                                      n: nat, i: nat)
    requires i < n <= |table| && CallsSent(table, issued, requests, sent, n)
    ensures EntrySent(table[i], issued, requests, sent)
  {
    if i < n - 1 { CallIsSent(table, issued, requests, sent, n - 1, i); }
  }

  lemma {:induction false} CallsSentGrow(
      table: seq<Entry>, issued: seq<Issue>, requests: seq<Request>, sent: seq<Sent>,
      issued': seq<Issue>, requests': seq<Request>, sent': seq<Sent>, n: nat)
    requires n <= |table| && CallsSent(table, issued, requests, sent, n)
    requires issued <= issued' && requests <= requests' && sent <= sent'
    ensures CallsSent(table, issued', requests', sent', n)
  {
    if n > 0 { CallsSentGrow(table, issued, requests, sent, issued', requests', sent', n - 1); }
  }

  lemma {:induction false} CallsSentWith(
      table: seq<Entry>, issued: seq<Issue>, requests: seq<Request>, sent: seq<Sent>, at: nat, e: Entry, n: nat)
    requires n <= |table| && at < |table| && CallsSent(table, issued, requests, sent, n)
    requires EntrySent(e, issued, requests, sent)
    ensures CallsSent(table[at := e], issued, requests, sent, n)
  {
    if n > 0 { CallsSentWith(table, issued, requests, sent, at, e, n - 1); }
  }

  lemma {:induction false} NoneSent(table: seq<Entry>, issued: seq<Issue>, requests: seq<Request>, sent: seq<Sent>,
      n: nat)
    requires n <= |table| && forall i :: 0 <= i < n ==> !table[i].Call?
    ensures CallsSent(table, issued, requests, sent, n)
  {
    if n > 0 { NoneSent(table, issued, requests, sent, n - 1); }
  }

  // ---------------------------------------------------------------- calls

  /** Every call has one fate, and every table entry and every answer written is some call's fate. */
  ghost predicate FateOk(table: seq<Entry>, asked: seq<Json>, stdout: seq<Out>, fate: seq<Fate>, t: nat)
    requires t < |fate| == |asked|
  {
    match fate[t]
    case Waiting(i) => i < |table| && table[i].Call? && table[i].ticket == t && table[i].origId == asked[t]
    case Ready(m) => Rpc.IdOf(m) == Some(asked[t])
    case Written(k) => k < |stdout| && stdout[k].Answer? && stdout[k].ticket == t
                       && Rpc.IdOf(stdout[k].message) == Some(asked[t])
    case Lost => true
  }

  ghost predicate FatesBelow(table: seq<Entry>, asked: seq<Json>, stdout: seq<Out>, fate: seq<Fate>, n: nat)
    requires n <= |fate| == |asked|
  {
    n == 0 || (FatesBelow(table, asked, stdout, fate, n - 1) && FateOk(table, asked, stdout, fate, n - 1))
  }

  /** The calls in the first `n` table entries wait there. */
  ghost predicate CallsBelow(table: seq<Entry>, fate: seq<Fate>, n: nat)
    requires n <= |table|
  {
    n == 0 || (CallsBelow(table, fate, n - 1)
               && (table[n - 1].Call? ==> table[n - 1].ticket < |fate| && fate[table[n - 1].ticket] == Waiting(n - 1)))
  }

  /** The answers among the first `n` outputs are where their calls went. */
  ghost predicate AnswersBelow(stdout: seq<Out>, fate: seq<Fate>, n: nat)
    requires n <= |stdout|
  {
    n == 0 || (AnswersBelow(stdout, fate, n - 1)
               && (stdout[n - 1].Answer? ==>
                     stdout[n - 1].ticket < |fate| && fate[stdout[n - 1].ticket] == Written(n - 1)))
  }

  ghost function LostBelow(fate: seq<Fate>, n: nat): set<nat>
    requires n <= |fate|
  {
    if n == 0 then {} else LostBelow(fate, n - 1) + if fate[n - 1].Lost? then {n - 1 as nat} else {}
  }

  ghost predicate FatesOk(table: seq<Entry>, asked: seq<Json>, stdout: seq<Out>, fate: seq<Fate>, crossed: set<nat>) {
    && |fate| == |asked|
    && FatesBelow(table, asked, stdout, fate, |fate|)
    && CallsBelow(table, fate, |table|)
    && AnswersBelow(stdout, fate, |stdout|)
    && crossed == LostBelow(fate, |fate|)
  }

  /** The same, entry by entry. */
  ghost predicate FatesLinked(table: seq<Entry>, asked: seq<Json>, stdout: seq<Out>, fate: seq<Fate>,
      crossed: set<nat>) {
    && |fate| == |asked|
    && (forall t :: 0 <= t < |fate| ==> FateOk(table, asked, stdout, fate, t))
    && (forall i :: 0 <= i < |table| && table[i].Call? ==>
          table[i].ticket < |fate| && fate[table[i].ticket] == Waiting(i))
    && (forall k :: 0 <= k < |stdout| && stdout[k].Answer? ==>
          stdout[k].ticket < |fate| && fate[stdout[k].ticket] == Written(k))
    && (forall t: nat :: t in crossed <==> t < |fate| && fate[t].Lost?)
  }

  lemma {:induction false} FatesBelowIff(table: seq<Entry>, asked: seq<Json>, stdout: seq<Out>, fate: seq<Fate>, n: nat)
    requires n <= |fate| == |asked|
    ensures FatesBelow(table, asked, stdout, fate, n) <==> forall t :: 0 <= t < n ==>
            FateOk(table, asked, stdout, fate, t)
  {
    if n > 0 { FatesBelowIff(table, asked, stdout, fate, n - 1); }
  }

  lemma {:induction false} CallsBelowIff(table: seq<Entry>, fate: seq<Fate>, n: nat)
    requires n <= |table|
    ensures CallsBelow(table, fate, n) <==>
            forall i :: 0 <= i < n && table[i].Call? ==> table[i].ticket < |fate| && fate[table[i].ticket] == Waiting(i)
  {
    if n > 0 { CallsBelowIff(table, fate, n - 1); }
  }

  lemma {:induction false} AnswersBelowIff(stdout: seq<Out>, fate: seq<Fate>, n: nat)
    requires n <= |stdout|
    ensures AnswersBelow(stdout, fate, n) <==>
            forall k :: 0 <= k < n && stdout[k].Answer? ==>
              stdout[k].ticket < |fate| && fate[stdout[k].ticket] == Written(k)
  {
    if n > 0 { AnswersBelowIff(stdout, fate, n - 1); }
  }

  lemma {:induction false} LostBelowHas(fate: seq<Fate>, n: nat)
    requires n <= |fate|
    ensures forall t: nat :: t in LostBelow(fate, n) <==> t < n && fate[t].Lost?
  {
    if n > 0 { LostBelowHas(fate, n - 1); }
  }

  lemma FatesOkIff(table: seq<Entry>, asked: seq<Json>, stdout: seq<Out>, fate: seq<Fate>, crossed: set<nat>)
    ensures FatesOk(table, asked, stdout, fate, crossed) <==> FatesLinked(table, asked, stdout, fate, crossed)
  {
    if |fate| == |asked| {
      FatesBelowIff(table, asked, stdout, fate, |fate|);
      CallsBelowIff(table, fate, |table|);
      AnswersBelowIff(stdout, fate, |stdout|);
      LostBelowHas(fate, |fate|);
    }
  }

  /** No call is answered twice, and what answers it carries its id. */
  lemma AnsweredOnce(table: seq<Entry>, asked: seq<Json>, stdout: seq<Out>, fate: seq<Fate>, crossed: set<nat>,
      k: nat, l: nat)
    requires FatesOk(table, asked, stdout, fate, crossed)
    requires k < |stdout| && l < |stdout| && stdout[k].Answer? && stdout[l].Answer?
    ensures stdout[k].ticket == stdout[l].ticket ==> k == l
    ensures stdout[k].ticket < |asked| && Rpc.IdOf(stdout[k].message) == Some(asked[stdout[k].ticket])
  {
    FatesOkIff(table, asked, stdout, fate, crossed);
    assert FateOk(table, asked, stdout, fate, stdout[k].ticket);
  }

  // Conservation.

  ghost function CallsIn(table: seq<Entry>): set<nat> {
    set i: nat | i < |table| && table[i].Call?
  }

  ghost function ReadyIn(fate: seq<Fate>): set<nat> {
    set t: nat | t < |fate| && fate[t].Ready?
  }

  ghost function AnswersIn(stdout: seq<Out>): set<nat> {
    set k: nat | k < |stdout| && stdout[k].Answer?
  }

  ghost function Below(n: nat): set<nat> {
    if n == 0 then {} else Below(n - 1) + {n - 1 as nat}
  }

  lemma {:induction false} SizeOfBelow(n: nat)
    ensures |Below(n)| == n
    ensures forall t: nat :: t in Below(n) <==> t < n
  {
    if n > 0 { SizeOfBelow(n - 1); }
  }

  lemma {:induction false} SameSize(m: map<nat, nat>, b: set<nat>)
    requires forall x, y :: x in m && y in m && m[x] == m[y] ==> x == y
    requires forall x :: x in m ==> m[x] in b
    requires forall y :: y in b ==> exists x :: x in m && m[x] == y
    ensures |m.Keys| == |b|
    decreases |m.Keys|
  {
    if m.Keys == {} {
      assert b == {};
    } else {
      var x :| x in m;
      var rest := m - {x};
      forall y | y in b - {m[x]} ensures exists z :: z in rest && rest[z] == y {
        var z :| z in m && m[z] == y;
        assert z in rest;
      }
      assert rest.Keys == m.Keys - {x};
      SameSize(rest, b - {m[x]});
    }
  }

  lemma WaitingSize(table: seq<Entry>, asked: seq<Json>, stdout: seq<Out>, fate: seq<Fate>, crossed: set<nat>)
    returns (waiting: set<nat>)
    requires FatesLinked(table, asked, stdout, fate, crossed)
    ensures forall t: nat :: t in waiting <==> t < |fate| && fate[t].Waiting?
    ensures |waiting| == |CallsIn(table)|
  {
    var m := map t: nat | t < |fate| && fate[t].Waiting? :: fate[t].at;
    forall x | x in m ensures m[x] in CallsIn(table) && table[m[x]].ticket == x {
      assert FateOk(table, asked, stdout, fate, x);
    }
    forall i | i in CallsIn(table) ensures exists t :: t in m && m[t] == i {
      assert table[i].ticket in m;
    }
    SameSize(m, CallsIn(table));
    waiting := m.Keys;
  }

  lemma WrittenSize(table: seq<Entry>, asked: seq<Json>, stdout: seq<Out>, fate: seq<Fate>, crossed: set<nat>)
    returns (written: set<nat>)
    requires FatesLinked(table, asked, stdout, fate, crossed)
    ensures forall t: nat :: t in written <==> t < |fate| && fate[t].Written?
    ensures |written| == |AnswersIn(stdout)|
  {
    var m := map t: nat | t < |fate| && fate[t].Written? :: fate[t].position;
    forall x | x in m ensures m[x] in AnswersIn(stdout) && stdout[m[x]].ticket == x {
      assert FateOk(table, asked, stdout, fate, x);
    }
    forall k | k in AnswersIn(stdout) ensures exists t :: t in m && m[t] == k {
      assert stdout[k].ticket in m;
    }
    SameSize(m, AnswersIn(stdout));
    written := m.Keys;
  }

  /** Calls received = in flight + answered but not yet written + written + lost. */
  lemma Conservation(table: seq<Entry>, asked: seq<Json>, stdout: seq<Out>, fate: seq<Fate>, crossed: set<nat>)
    requires FatesOk(table, asked, stdout, fate, crossed)
    ensures |asked| == |CallsIn(table)| + |ReadyIn(fate)| + |AnswersIn(stdout)| + |crossed|
  {
    FatesOkIff(table, asked, stdout, fate, crossed);
    var waiting := WaitingSize(table, asked, stdout, fate, crossed);
    var written := WrittenSize(table, asked, stdout, fate, crossed);
    Partition(fate, crossed, waiting, written);
  }

  lemma Partition(fate: seq<Fate>, crossed: set<nat>, waiting: set<nat>, written: set<nat>)
    requires forall t: nat :: t in crossed <==> t < |fate| && fate[t].Lost?
    requires forall t: nat :: t in waiting <==> t < |fate| && fate[t].Waiting?
    requires forall t: nat :: t in written <==> t < |fate| && fate[t].Written?
    ensures |fate| == |waiting| + |ReadyIn(fate)| + |written| + |crossed|
  {
    SizeOfBelow(|fate|);
    assert Below(|fate|) == waiting + ReadyIn(fate) + written + crossed;
  }

  // How the steps move calls on.

  lemma CallRefused(table: seq<Entry>, asked: seq<Json>, stdout: seq<Out>, fate: seq<Fate>, crossed: set<nat>,
      id: Json, m: Json)
    requires FatesOk(table, asked, stdout, fate, crossed) && Rpc.IdOf(m) == Some(id)
    ensures FatesOk(table, asked + [id], stdout, fate + [Ready(m)], crossed)
  {
    var asked', fate' := asked + [id], fate + [Ready(m)];
    FatesOkIff(table, asked, stdout, fate, crossed);
    FatesOkIff(table, asked', stdout, fate', crossed);
    forall t | 0 <= t < |fate| ensures FateOk(table, asked', stdout, fate', t) {
      assert FateOk(table, asked, stdout, fate, t);
    }
  }

  lemma CallForwarded(table: seq<Entry>, asked: seq<Json>, stdout: seq<Out>, fate: seq<Fate>, crossed: set<nat>,
                      id: Json, at: nat, e: Entry)
    requires FatesOk(table, asked, stdout, fate, crossed) && at < |table| && table[at].Free?
    requires e.Call? && e.origId == id && e.ticket == |fate|
    ensures FatesOk(table[at := e], asked + [id], stdout, fate + [Waiting(at)], crossed)
  {
    var table', asked', fate' := table[at := e], asked + [id], fate + [Waiting(at)];
    FatesOkIff(table, asked, stdout, fate, crossed);
    FatesOkIff(table', asked', stdout, fate', crossed);
    forall t | 0 <= t < |fate| ensures FateOk(table', asked', stdout, fate', t) {
      assert FateOk(table, asked, stdout, fate, t);
    }
  }

  /** A call leaves the table, answered or lost. */
  lemma CallReleased(table: seq<Entry>, asked: seq<Json>, stdout: seq<Out>, fate: seq<Fate>, crossed: set<nat>,
                     at: nat, f: Fate)
    requires FatesOk(table, asked, stdout, fate, crossed) && at < |table| && table[at].Call?
    requires f.Lost? || (f.Ready? && Rpc.IdOf(f.message) == Some(table[at].origId))
    ensures table[at].ticket < |fate|
    ensures FatesOk(table[at := Free], asked, stdout, fate[table[at].ticket := f],
                    if f.Lost? then crossed + {table[at].ticket} else crossed)
  {
    FatesOkIff(table, asked, stdout, fate, crossed);
    var table', fate' := table[at := Free], fate[table[at].ticket := f];
    var crossed' := if f.Lost? then crossed + {table[at].ticket} else crossed;
    FatesOkIff(table', asked, stdout, fate', crossed');
    assert FateOk(table, asked, stdout, fate, table[at].ticket);
    forall t | 0 <= t < |fate| ensures FateOk(table', asked, stdout, fate', t) {
      assert FateOk(table, asked, stdout, fate, t);
    }
  }

  /** An answer that was ready is written. */
  lemma AnswerWritten(table: seq<Entry>, asked: seq<Json>, stdout: seq<Out>, fate: seq<Fate>, crossed: set<nat>, t: nat)
    requires FatesOk(table, asked, stdout, fate, crossed) && t < |fate| && fate[t].Ready?
    ensures FatesOk(table, asked, stdout + [Answer(t, fate[t].message)], fate[t := Written(|stdout|)], crossed)
  {
    var fate', stdout' := fate[t := Written(|stdout|)], stdout + [Answer(t, fate[t].message)];
    FatesOkIff(table, asked, stdout, fate, crossed);
    FatesOkIff(table, asked, stdout', fate', crossed);
    assert FateOk(table, asked, stdout, fate, t);
    forall u | 0 <= u < |fate| ensures FateOk(table, asked, stdout', fate', u) {
      assert FateOk(table, asked, stdout, fate, u);
    }
  }

  /** Other output, and table entries that are not calls, leave the calls alone. */
  lemma OtherWritten(table: seq<Entry>, asked: seq<Json>, stdout: seq<Out>, fate: seq<Fate>, crossed: set<nat>,
      out: Out)
    requires FatesOk(table, asked, stdout, fate, crossed) && !out.Answer?
    ensures FatesOk(table, asked, stdout + [out], fate, crossed)
  {
    FatesOkIff(table, asked, stdout, fate, crossed);
    FatesOkIff(table, asked, stdout + [out], fate, crossed);
    forall t | 0 <= t < |fate| ensures FateOk(table, asked, stdout + [out], fate, t) {
      assert FateOk(table, asked, stdout, fate, t);
    }
  }

  lemma OtherEntry(table: seq<Entry>, asked: seq<Json>, stdout: seq<Out>, fate: seq<Fate>, crossed: set<nat>, at: nat,
      e: Entry)
    requires FatesOk(table, asked, stdout, fate, crossed) && at < |table| && !table[at].Call? && !e.Call?
    ensures FatesOk(table[at := e], asked, stdout, fate, crossed)
  {
    var table' := table[at := e];
    FatesOkIff(table, asked, stdout, fate, crossed);
    FatesOkIff(table', asked, stdout, fate, crossed);
    forall t | 0 <= t < |fate| ensures FateOk(table', asked, stdout, fate, t) {
      assert FateOk(table, asked, stdout, fate, t);
    }
  }

  lemma EntryAdded(table: seq<Entry>, slots: seq<Slot>, issued: seq<Issue>, at: nat, e: Entry)
    requires TableOk(table, slots, issued) && at < |table|
    requires !e.Free? && e.id == |issued| + 1 && e.slot < |slots| && slots[e.slot].Taken?
    ensures TableOk(table[at := e], slots, issued + [Issue(slots[e.slot].conn, TicketOf(e), at)])
  {
    var issued' := issued + [Issue(slots[e.slot].conn, TicketOf(e), at)];
    var table' := table[at := e];
    forall i | 0 <= i < |table| && !table'[i].Free? ensures EntryOk(table', slots, issued', i) {
      if i != at { EntryIsOk(table, slots, issued, |table|, i); }
    }
    EntriesAreOk(table', slots, issued', |table|);
  }

  lemma EntryFreed(table: seq<Entry>, slots: seq<Slot>, issued: seq<Issue>, at: nat)
    requires TableOk(table, slots, issued) && at < |table|
    ensures TableOk(table[at := Free], slots, issued)
  {
    var table' := table[at := Free];
    forall i | 0 <= i < |table| && !table'[i].Free? ensures EntryOk(table', slots, issued, i) {
      EntryIsOk(table, slots, issued, |table|, i);
    }
    EntriesAreOk(table', slots, issued, |table|);
  }

  /** A slot may change while its connection stays, and freely while no entry refers to it. */
  lemma SlotChanged(table: seq<Entry>, slots: seq<Slot>, issued: seq<Issue>, k: nat, s: Slot)
    requires TableOk(table, slots, issued) && k < |slots|
    requires || (slots[k].Taken? && s.Taken? && s.conn == slots[k].conn)
             || forall i :: 0 <= i < |table| && !table[i].Free? ==> table[i].slot != k
    ensures TableOk(table, slots[k := s], issued)
  {
    forall i | 0 <= i < |table| && !table[i].Free? ensures EntryOk(table, slots[k := s], issued, i) {
      EntryIsOk(table, slots, issued, |table|, i);
    }
    EntriesAreOk(table, slots[k := s], issued, |table|);
  }

  // ---------------------------------------------------------------- membership

  /** Which slots have a reader thread: exactly the taken ones. */
  function Live(slots: seq<Slot>): (r: seq<bool>)
    ensures |r| == |slots|
  {
    seq(|slots|, i requires 0 <= i < |slots| => slots[i].Taken?)
  }

  lemma LiveChanged(slots: seq<Slot>, i: nat, s: Slot)
    requires i < |slots|
    ensures Live(slots)[i] == slots[i].Taken?
    ensures Live(slots[i := s]) == Live(slots)[i := s.Taken?]
  {
  }

  /** The seat tables know this slot. */
  ghost predicate SlotSeated(s: Slot, i: nat, seat: map<int, nat>, shellSeat: Option<nat>) {
    s.Taken? ==> if s.isShell then shellSeat == Some(i) else s.pid in seat && seat[s.pid] == i
  }

  ghost predicate SeatedBelow(slots: seq<Slot>, seat: map<int, nat>, shellSeat: Option<nat>, n: nat)
    requires n <= |slots|
  {
    n == 0 || (SeatedBelow(slots, seat, shellSeat, n - 1) && SlotSeated(slots[n - 1], n - 1, seat, shellSeat))
  }

  /** The processes of the apps among the first `n` slots. */
  ghost function PidsBelow(slots: seq<Slot>, n: nat): set<int>
    requires n <= |slots|
  {
    if n == 0 then {}
    else PidsBelow(slots, n - 1) + if slots[n - 1].Taken? && !slots[n - 1].isShell then {slots[n - 1].pid} else {}
  }

  ghost predicate ShellBelow(slots: seq<Slot>, n: nat)
    requires n <= |slots|
  {
    n > 0 && (ShellBelow(slots, n - 1) || (slots[n - 1].Taken? && slots[n - 1].isShell))
  }

  /** `seat` gives every live app's slot by its process, `shellSeat` the shell's, and nothing else. */
  ghost predicate SeatsOk(slots: seq<Slot>, seat: map<int, nat>, shellSeat: Option<nat>) {
    && SeatedBelow(slots, seat, shellSeat, |slots|)
    && seat.Keys == PidsBelow(slots, |slots|)
    && (shellSeat.Some? <==> ShellBelow(slots, |slots|))
  }

  /** The same, slot by slot. */
  ghost predicate SeatsLinked(slots: seq<Slot>, seat: map<int, nat>, shellSeat: Option<nat>) {
    && (forall i :: 0 <= i < |slots| ==> SlotSeated(slots[i], i, seat, shellSeat))
    && (forall p :: p in seat ==>
          seat[p] < |slots| && slots[seat[p]].Taken? && !slots[seat[p]].isShell && slots[seat[p]].pid == p)
    && (shellSeat.Some? ==>
          shellSeat.value < |slots| && slots[shellSeat.value].Taken? && slots[shellSeat.value].isShell)
  }

  lemma {:induction false} SeatedBelowIff(slots: seq<Slot>, seat: map<int, nat>, shellSeat: Option<nat>, n: nat)
    requires n <= |slots|
    ensures SeatedBelow(slots, seat, shellSeat, n) <==> forall i :: 0 <= i < n ==>
            SlotSeated(slots[i], i, seat, shellSeat)
  {
    if n > 0 { SeatedBelowIff(slots, seat, shellSeat, n - 1); }
  }

  lemma {:induction false} PidsBelowHas(slots: seq<Slot>, n: nat, p: int)
    requires n <= |slots|
    ensures p in PidsBelow(slots, n) <==>
            exists i :: 0 <= i < n && slots[i].Taken? && !slots[i].isShell && slots[i].pid == p
  {
    if n > 0 { PidsBelowHas(slots, n - 1, p); }
  }

  lemma {:induction false} ShellBelowHas(slots: seq<Slot>, n: nat)
    requires n <= |slots|
    ensures ShellBelow(slots, n) <==> exists i :: 0 <= i < n && slots[i].Taken? && slots[i].isShell
  {
    if n > 0 { ShellBelowHas(slots, n - 1); }
  }

  lemma SeatsOkIff(slots: seq<Slot>, seat: map<int, nat>, shellSeat: Option<nat>)
    ensures SeatsOk(slots, seat, shellSeat) <==> SeatsLinked(slots, seat, shellSeat)
  {
    SeatedBelowIff(slots, seat, shellSeat, |slots|);
    ShellBelowHas(slots, |slots|);
    forall p ensures p in PidsBelow(slots, |slots|) <==>
                     exists i :: 0 <= i < |slots| && slots[i].Taken? && !slots[i].isShell && slots[i].pid == p {
      PidsBelowHas(slots, |slots|, p);
    }
    if SeatsLinked(slots, seat, shellSeat) {
      forall p ensures p in seat.Keys <==> p in PidsBelow(slots, |slots|) {
        if i :| 0 <= i < |slots| && slots[i].Taken? && !slots[i].isShell && slots[i].pid == p {
          assert SlotSeated(slots[i], i, seat, shellSeat);
        }
      }
      if i :| 0 <= i < |slots| && slots[i].Taken? && slots[i].isShell {
        assert SlotSeated(slots[i], i, seat, shellSeat);
      }
    }
  }

  /** A vacant slot is taken by a backend that has none. */
  lemma SeatTaken(slots: seq<Slot>, seat: map<int, nat>, shellSeat: Option<nat>, i: nat, s: Slot)
    requires SeatsOk(slots, seat, shellSeat) && i < |slots| && slots[i].Vacant? && s.Taken?
    requires if s.isShell then shellSeat.None? else s.pid !in seat
    ensures if s.isShell then SeatsOk(slots[i := s], seat, Some(i))
            else SeatsOk(slots[i := s], seat[s.pid := i], shellSeat)
  {
    var slots' := slots[i := s];
    var seat', shellSeat' := if s.isShell then seat else seat[s.pid := i], if s.isShell then Some(i) else shellSeat;
    SeatsOkIff(slots, seat, shellSeat);
    SeatsOkIff(slots', seat', shellSeat');
    forall k | 0 <= k < |slots'| ensures SlotSeated(slots'[k], k, seat', shellSeat') {
      assert SlotSeated(slots[k], k, seat, shellSeat);
    }
  }

  /** A taken slot is given up. */
  lemma SeatLeft(slots: seq<Slot>, seat: map<int, nat>, shellSeat: Option<nat>, i: nat)
    requires SeatsOk(slots, seat, shellSeat) && i < |slots| && slots[i].Taken?
    ensures if slots[i].isShell then SeatsOk(slots[i := Vacant], seat, None)
            else SeatsOk(slots[i := Vacant], seat - {slots[i].pid}, shellSeat)
  {
    var slots' := slots[i := Vacant];
    var seat' := if slots[i].isShell then seat else seat - {slots[i].pid};
    var shellSeat' := if slots[i].isShell then None else shellSeat;
    SeatsOkIff(slots, seat, shellSeat);
    SeatsOkIff(slots', seat', shellSeat');
    assert SlotSeated(slots[i], i, seat, shellSeat);
    forall k | 0 <= k < |slots'| ensures SlotSeated(slots'[k], k, seat', shellSeat') {
      assert SlotSeated(slots[k], k, seat, shellSeat);
    }
  }

  lemma SeatKept(slots: seq<Slot>, seat: map<int, nat>, shellSeat: Option<nat>, i: nat, s: Slot)
    requires SeatsOk(slots, seat, shellSeat) && i < |slots| && slots[i].Taken? && s.Taken?
    requires s.pid == slots[i].pid && s.isShell == slots[i].isShell
    ensures SeatsOk(slots[i := s], seat, shellSeat)
  {
    var slots' := slots[i := s];
    SeatsOkIff(slots, seat, shellSeat);
    SeatsOkIff(slots', seat, shellSeat);
    forall k | 0 <= k < |slots'| ensures SlotSeated(slots'[k], k, seat, shellSeat) {
      assert SlotSeated(slots[k], k, seat, shellSeat);
    }
  }

  /** No two live slots have the same process, and at most one is the shell's. */
  lemma OneSlotEach(slots: seq<Slot>, seat: map<int, nat>, shellSeat: Option<nat>, i: nat, j: nat)
    requires SeatsOk(slots, seat, shellSeat) && i < |slots| && j < |slots| && slots[i].Taken? && slots[j].Taken?
    requires slots[i].isShell == slots[j].isShell && (slots[i].isShell || slots[i].pid == slots[j].pid)
    ensures i == j
  {
    SeatsOkIff(slots, seat, shellSeat);
    assert SlotSeated(slots[i], i, seat, shellSeat) && SlotSeated(slots[j], j, seat, shellSeat);
  }

  // The list of setups under way.

  ghost predicate ListedOnce(connecting: seq<int>, n: nat)
    requires n <= |connecting|
  {
    n == 0 || (ListedOnce(connecting, n - 1) && connecting[n - 1] !in connecting[..n - 1])
  }

  ghost function Elements(connecting: seq<int>): set<int> {
    set p | p in connecting
  }

  ghost function Busy(setups: map<int, Phase>): set<int> {
    set p | p in setups && setups[p] == Handshaking
  }

  /** The connecting list names each outstanding app setup once; a handshaking process has no slot. */
  ghost predicate SetupsOk(connecting: seq<int>, shellConnecting: bool, setups: map<int, Phase>,
      shellSetup: Option<Phase>,
                           seat: map<int, nat>, shellSeat: Option<nat>) {
    && |connecting| <= MAX_BACKENDS && ListedOnce(connecting, |connecting|)
    && setups.Keys == Elements(connecting)
    && Busy(setups) !! seat.Keys
    && (shellConnecting <==> shellSetup.Some?)
    && (shellSetup == Some(Handshaking) ==> shellSeat.None?)
  }

  lemma {:induction false} ListedOnceIff(connecting: seq<int>, n: nat)
    requires n <= |connecting|
    ensures ListedOnce(connecting, n) <==> NoRepeats(connecting[..n])
  {
    if n > 0 {
      ListedOnceIff(connecting, n - 1);
      assert connecting[..n - 1] == connecting[..n][..n - 1];
    }
  }

  /** A handshake that ends frees its process for a slot. */
  lemma PhaseEnded(setups: map<int, Phase>, seat: map<int, nat>, p: int)
    requires Busy(setups) !! seat.Keys && p in setups
    ensures Busy(setups[p := Finishing]) !! seat.Keys
    ensures setups[p] == Handshaking ==> p !in seat
    ensures setups[p := Finishing].Keys == setups.Keys
  {
    assert setups[p] == Handshaking ==> p in Busy(setups);
    assert Busy(setups[p := Finishing]) <= Busy(setups);
  }

  lemma SeatsLeaveBusy(setups: map<int, Phase>, seat: map<int, nat>, p: int, k: nat)
    requires Busy(setups) !! seat.Keys
    ensures p in setups && setups[p] == Finishing ==> Busy(setups) !! seat[p := k].Keys
    ensures Busy(setups) !! (seat - {p}).Keys
  {
  }

  /** Overwriting the entry at `i` with the last and dropping the last removes exactly that entry. */
  lemma SwapRemove<T(!new)>(s: seq<T>, i: nat)
    requires NoRepeats(s) && i < |s|
    ensures var r := s[i := s[|s| - 1]][..|s| - 1];
            NoRepeats(r) && forall x :: x in r <==> x in s && x != s[i]
  {
    var r := s[i := s[|s| - 1]][..|s| - 1];
    forall x | x in s && x != s[i] ensures x in r {
      var k :| 0 <= k < |s| && s[k] == x;
      assert r[if k == |s| - 1 then i else k] == x;
    }
    forall x | x in r ensures x in s && x != s[i] {
      var k :| 0 <= k < |r| && r[k] == x;
      assert s[if k == i then |s| - 1 else k] == x;
    }
  }

  // ---------------------------------------------------------------- connections

  /** The slot of each connection; the connections of the first `n` slots are theirs. */
  ghost predicate HomesBelow(slots: seq<Slot>, homes: seq<nat>, n: nat)
    requires n <= |slots|
  {
    n == 0 || (HomesBelow(slots, homes, n - 1)
               && (slots[n - 1].Taken? ==> slots[n - 1].conn < |homes| && homes[slots[n - 1].conn] == n - 1))
  }

  ghost predicate HomesOk(slots: seq<Slot>, homes: seq<nat>) {
    HomesBelow(slots, homes, |slots|)
  }

  lemma {:induction false} HomesBelowIff(slots: seq<Slot>, homes: seq<nat>, n: nat)
    requires n <= |slots|
    ensures HomesBelow(slots, homes, n) <==>
            forall i :: 0 <= i < n && slots[i].Taken? ==> slots[i].conn < |homes| && homes[slots[i].conn] == i
  {
    if n > 0 { HomesBelowIff(slots, homes, n - 1); }
  }

  lemma HomeKept(slots: seq<Slot>, homes: seq<nat>, i: nat, s: Slot)
    requires HomesOk(slots, homes) && i < |slots|
    requires s.Vacant? || (slots[i].Taken? && s.conn == slots[i].conn)
    ensures HomesOk(slots[i := s], homes)
  {
    HomesBelowIff(slots, homes, |slots|);
    HomesBelowIff(slots[i := s], homes, |slots|);
  }

  lemma HomeTaken(slots: seq<Slot>, homes: seq<nat>, i: nat, s: Slot)
    requires HomesOk(slots, homes) && i < |slots| && s.Taken? && s.conn == |homes|
    ensures HomesOk(slots[i := s], homes + [i])
  {
    HomesBelowIff(slots, homes, |slots|);
    HomesBelowIff(slots[i := s], homes + [i], |slots|);
  }

  /** Live slots have different connections. */
  lemma OneHomeEach(slots: seq<Slot>, homes: seq<nat>, i: nat, j: nat)
    requires HomesOk(slots, homes) && i < |slots| && j < |slots| && slots[i].Taken? && slots[j].Taken?
    requires slots[i].conn == slots[j].conn
    ensures i == j
  {
    HomesBelowIff(slots, homes, |slots|);
  }

  // ---------------------------------------------------------------- prefixes

  /** Prefixes given out so far, and the slot each was given to. */
  datatype Naming = Naming(name: bytes, slot: nat)

  function Names(namings: seq<Naming>): (r: seq<bytes>)
    ensures |r| == |namings|
  {
    seq(|namings|, i requires 0 <= i < |namings| => namings[i].name)
  }

  /** A taken slot's prefix comes from its naming; the shell's is fixed. */
  ghost predicate SlotNameOk(s: Slot, i: nat, namings: seq<Naming>) {
    match s
    case Vacant => true
    case Taken(isShell, _, prefix, _, _, _, n) =>
      if isShell then prefix == SHELL
      else N.PrefixText(prefix) && n < |namings| && namings[n] == Naming(prefix, i)
  }

  /** The first `n` slots are named in order. */
  ghost predicate NamedBelow(slots: seq<Slot>, namings: seq<Naming>, n: nat)
    requires n <= |slots|
  {
    n == 0 || (NamedBelow(slots, namings, n - 1) && SlotNameOk(slots[n - 1], n - 1, namings))
  }

  ghost predicate SlotNamesOk(slots: seq<Slot>, namings: seq<Naming>) {
    NamedBelow(slots, namings, |slots|)
  }

  lemma {:induction false} NamedBelowIff(slots: seq<Slot>, namings: seq<Naming>, n: nat)
    requires n <= |slots|
    ensures NamedBelow(slots, namings, n) <==> forall i :: 0 <= i < n ==> SlotNameOk(slots[i], i, namings)
  {
    if n > 0 { NamedBelowIff(slots, namings, n - 1); }
  }

  /** Live apps have different prefixes while no name was given out twice. */
  lemma LiveNamesDiffer(slots: seq<Slot>, namings: seq<Naming>, i: nat, j: nat)
    requires SlotNamesOk(slots, namings) && NoRepeats(Names(namings))
    requires i < |slots| && j < |slots| && slots[i].Taken? && slots[j].Taken? && !slots[i].isShell && !slots[j].isShell
    requires slots[i].prefix == slots[j].prefix
    ensures i == j
  {
    NamedBelowIff(slots, namings, |slots|);
    assert SlotNameOk(slots[i], i, namings) && SlotNameOk(slots[j], j, namings);
    assert Names(namings)[slots[i].naming] == Names(namings)[slots[j].naming];
  }

  /** Giving out the next name keeps the registry in order. */
  lemma RegistryKept(used: seq<bytes>, namings: seq<Naming>, slugs: seq<bytes>, slug: bytes, i: nat)
    requires N.After(slugs).used == used && N.After(slugs).given == Names(namings)
    ensures N.After(slugs + [slug]).used == N.Registered(used, slug)
    ensures N.After(slugs + [slug]).given == Names(namings + [Naming(N.Assigned(used, slug), i)])
  {
    N.AfterNext(slugs, slug);
    assert Names(namings + [Naming(N.Assigned(used, slug), i)]) == Names(namings) + [N.Assigned(used, slug)];
  }

  /** A slot that is named, vacated, or keeps its name leaves the others' names alone. */
  lemma SlotNamed(slots: seq<Slot>, namings: seq<Naming>, i: nat, s: Slot)
    requires SlotNamesOk(slots, namings) && i < |slots|
    requires || SlotNameOk(s, i, namings)
             || (slots[i].Taken? && s.Taken? && s.isShell == slots[i].isShell
                 && s.prefix == slots[i].prefix && s.naming == slots[i].naming)
    ensures SlotNamesOk(slots[i := s], namings)
  {
    var slots' := slots[i := s];
    NamedBelowIff(slots, namings, |slots|);
    NamedBelowIff(slots', namings, |slots|);
    assert SlotNameOk(slots[i], i, namings);
    forall k | 0 <= k < |slots'| ensures SlotNameOk(slots'[k], k, namings) {
      assert SlotNameOk(slots[k], k, namings);
    }
  }

  lemma NamingsGrow(slots: seq<Slot>, namings: seq<Naming>, naming: Naming)
    requires SlotNamesOk(slots, namings)
    ensures SlotNamesOk(slots, namings + [naming])
  {
    NamedBelowIff(slots, namings, |slots|);
    NamedBelowIff(slots, namings + [naming], |slots|);
    forall k | 0 <= k < |slots| ensures SlotNameOk(slots[k], k, namings + [naming]) {
      assert SlotNameOk(slots[k], k, namings);
    }
  }

  // Setups.

  lemma ListedOnceMore(connecting: seq<int>, p: int)
    requires ListedOnce(connecting, |connecting|) && p !in connecting
    ensures ListedOnce(connecting + [p], |connecting| + 1)
  {
    ListedOnceIff(connecting, |connecting|);
    ListedOnceIff(connecting + [p], |connecting| + 1);
    assert connecting[..|connecting|] == connecting && (connecting + [p])[..|connecting| + 1] == connecting + [p];
  }

  lemma SetupStarted(connecting: seq<int>, shellConnecting: bool, setups: map<int, Phase>, shellSetup: Option<Phase>,
                     seat: map<int, nat>, shellSeat: Option<nat>, p: int)
    requires SetupsOk(connecting, shellConnecting, setups, shellSetup, seat, shellSeat)
    requires |connecting| < MAX_BACKENDS && p !in connecting && p !in seat
    ensures p !in setups
    ensures SetupsOk(connecting + [p], shellConnecting, setups[p := Handshaking], shellSetup, seat, shellSeat)
  {
    ListedOnceMore(connecting, p);
    assert p !in Elements(connecting);
    assert Elements(connecting + [p]) == Elements(connecting) + {p};
    assert Busy(setups[p := Handshaking]) <= Busy(setups) + {p};
  }

  lemma SetupEnded(connecting: seq<int>, shellConnecting: bool, setups: map<int, Phase>, shellSetup: Option<Phase>,
                   seat: map<int, nat>, shellSeat: Option<nat>, i: nat)
    requires SetupsOk(connecting, shellConnecting, setups, shellSetup, seat, shellSeat) && i < |connecting|
    ensures var r := connecting[i := connecting[|connecting| - 1]][..|connecting| - 1];
            && SetupsOk(r, shellConnecting, setups - {connecting[i]}, shellSetup, seat, shellSeat)
            && forall x :: x in r <==> x in connecting && x != connecting[i]
  {
    var r := connecting[i := connecting[|connecting| - 1]][..|connecting| - 1];
    ListedOnceIff(connecting, |connecting|);
    assert connecting[..|connecting|] == connecting;
    SwapRemove(connecting, i);
    ListedOnceIff(r, |r|);
    assert r[..|r|] == r;
    assert Elements(r) == Elements(connecting) - {connecting[i]};
    assert Busy(setups - {connecting[i]}) <= Busy(setups);
  }
}
