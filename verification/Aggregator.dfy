/** The workspace aggregator: each method is one lock-held region, or one write to the agent. */
module Aggregator {
  import opened AggregatorState
  import opened Bytes
  import opened JsonText
  import N = AppNames
  import Rpc

  // ---------------------------------------------------------------- table searches

  /** The first live slot from `i` on with this prefix, or the number of slots. */
  function PickFrom(slots: seq<Slot>, prefix: bytes, i: nat): (r: nat)
    requires i <= |slots|
    ensures i <= r <= |slots| && (r < |slots| ==> slots[r].Taken? && slots[r].prefix == prefix)
    decreases |slots| - i
  {
    if i < |slots| && !(slots[i].Taken? && slots[i].prefix == prefix) then PickFrom(slots, prefix, i + 1) else i
  }

  function VacantFrom(slots: seq<Slot>, i: nat): (r: nat)
    requires i <= |slots|
    ensures i <= r <= |slots| && (r < |slots| ==> slots[r].Vacant?)
    decreases |slots| - i
  {
    if i < |slots| && slots[i].Taken? then VacantFrom(slots, i + 1) else i
  }

  function FreeFrom(table: seq<Entry>, i: nat): (r: nat)
    requires i <= |table|
    ensures i <= r <= |table| && (r < |table| ==> table[r].Free?)
    decreases |table| - i
  {
    if i < |table| && !table[i].Free? then FreeFrom(table, i + 1) else i
  }

  /** The first used entry from `i` on with this id, or the table's size. */
  function EntryFrom(table: seq<Entry>, id: nat, i: nat): (r: nat)
    requires i <= |table|
    ensures i <= r <= |table| && (r < |table| ==> !table[r].Free? && table[r].id == id)
    decreases |table| - i
  {
    if i < |table| && !(!table[i].Free? && table[i].id == id) then EntryFrom(table, id, i + 1) else i
  }

  // ---------------------------------------------------------------- what a call comes to

  const INVALID_PARAMS: int := -32602
  const NOT_FOUND: int := -32601
  const REFUSED: int := -32000

  function MissingName(): bytes { Rpc.Text("tools/call: missing string 'name'") }
  function NoSeparator(): bytes { Rpc.Text("tool not found (expected <prefix>__<tool>)") }
  function NoSuchPrefix(): bytes { Rpc.Text("tool not found (no such app prefix)") }
  function TooMany(): bytes { Rpc.Text("too many calls in flight") }
  function WriteFailed(): bytes { Rpc.Text("backend write failed") }
  function BackendExited(): bytes { Rpc.Text("backend exited with the call in flight") }

  datatype Verdict = Listed | Refused(code: int, text: bytes) | Forwarded(slot: nat, tool: bytes, at: nat)

  /** What becomes of a call by this tool name, if the write to the backend works. */
  function VerdictOf(slots: seq<Slot>, table: seq<Entry>, name: Option<bytes>): Verdict {
    if name.None? then Refused(INVALID_PARAMS, MissingName())
    else
      match N.RouteOf(name.value)
      case ListApps => Listed
      case NotFound => Refused(NOT_FOUND, NoSeparator())
      case To(prefix, tool) =>
        var k := PickFrom(slots, prefix, 0);
        var at := FreeFrom(table, 0);
        if k == |slots| then Refused(NOT_FOUND, NoSuchPrefix())
        else if at == |table| then Refused(REFUSED, TooMany())
        else Forwarded(k, tool, at)
  }

  // ---------------------------------------------------------------- what the agent is told, in its own terms

  /** `name` is the prefix `p`, two underscores that are the first such pair, and the tool name `t`. */
  ghost predicate Splits(name: bytes, p: bytes, t: bytes) {
    && p != [] && t != [] && name == p + [UNDERSCORE, UNDERSCORE] + t
    && forall i :: 0 <= i < |p| ==> !(name[i] == UNDERSCORE && name[i + 1] == UNDERSCORE)
  }

  ghost predicate IsBuiltIn(name: bytes) {
    name == Rpc.Text("workspace__list_apps")
  }

  /** Some live slot has this prefix. */
  ghost predicate HasApp(slots: seq<Slot>, p: bytes) {
    exists k :: 0 <= k < |slots| && slots[k].Taken? && slots[k].prefix == p
  }

  ghost predicate IsFull(table: seq<Entry>) {
    forall i :: 0 <= i < |table| ==> !table[i].Free?
  }

  /** The call has been answered by this error. */
  ghost predicate IsTold(f: Fate, id: Json, code: int, text: bytes) {
    f == Ready(Rpc.ErrorReply(id, code, text))
  }

  /** A call by a name of a tool of some live app. */
  ghost predicate ForApp(name: Option<bytes>, slots: seq<Slot>) {
    name.Some? && !IsBuiltIn(name.value) && exists p, t :: Splits(name.value, p, t) && HasApp(slots, p)
  }

  /** The name is that of a tool of no live app. */
  ghost predicate ForNoApp(name: Option<bytes>, slots: seq<Slot>) {
    name.Some? && !IsBuiltIn(name.value) && exists p, t :: Splits(name.value, p, t) && !HasApp(slots, p)
  }

  ghost predicate IsMisnamed(name: Option<bytes>) {
    name.Some? && !IsBuiltIn(name.value) && forall p, t :: !Splits(name.value, p, t)
  }

  /**
   * What a call comes to: each answer exactly under its condition. `listing`, the built-in's reply, is no error
   * reply.
   */
  ghost predicate Answered(
      f: Fate, id: Json, listing: Json, name: Option<bytes>, slots: seq<Slot>, table: seq<Entry>, writeWorks: bool)
  {
    && (IsTold(f, id, -32602, Rpc.Text("tools/call: missing string 'name'")) <==> name.None?)
    && (f == Ready(listing) <==> name.Some? && IsBuiltIn(name.value))
    && (IsTold(f, id, -32601, Rpc.Text("tool not found (expected <prefix>__<tool>)")) <==> IsMisnamed(name))
    && (IsTold(f, id, -32601, Rpc.Text("tool not found (no such app prefix)")) <==> ForNoApp(name, slots))
    && (IsTold(f, id, -32000, Rpc.Text("too many calls in flight")) <==> ForApp(name, slots) && IsFull(table))
    && (IsTold(f, id, -32000, Rpc.Text("backend write failed")) <==>
          ForApp(name, slots) && !IsFull(table) && !writeWorks)
    && (f.Waiting? <==> ForApp(name, slots) && !IsFull(table) && writeWorks)
  }

  lemma {:induction false} NoAppIff(slots: seq<Slot>, p: bytes, i: nat)
    requires i <= |slots|
    ensures PickFrom(slots, p, i) == |slots| <==>
            forall k :: i <= k < |slots| ==> !(slots[k].Taken? && slots[k].prefix == p)
    decreases |slots| - i
  {
    if i < |slots| && !(slots[i].Taken? && slots[i].prefix == p) { NoAppIff(slots, p, i + 1); }
  }

  lemma {:induction false} FullIff(table: seq<Entry>, i: nat)
    requires i <= |table|
    ensures FreeFrom(table, i) == |table| <==> forall k :: i <= k < |table| ==> !table[k].Free?
    decreases |table| - i
  {
    if i < |table| && !table[i].Free? { FullIff(table, i + 1); }
  }

  lemma {:induction false} FirstPair(s: bytes, i: nat)
    requires i <= |s|
    ensures var r := N.SeparatorIn(s, i);
            && (forall k :: i <= k < r && k + 1 < |s| ==> !(s[k] == UNDERSCORE && s[k + 1] == UNDERSCORE))
            && (r < |s| ==> s[r] == s[r + 1] == UNDERSCORE)
    decreases |s| - i
  {
    if i + 1 < |s| && !(s[i] == UNDERSCORE && s[i + 1] == UNDERSCORE) { FirstPair(s, i + 1); }
  }

  /** A name splits in one way only: at the first pair of underscores. */
  lemma SplitsIff(s: bytes, p: bytes, t: bytes)
    ensures var r := N.SeparatorIn(s, 0);
            Splits(s, p, t) <==> 0 < r && r + 2 < |s| && p == s[..r] && t == s[r + 2..]
  {
    hide N.SeparatorIn;
    FirstPair(s, 0);
    var r := N.SeparatorIn(s, 0);
    if Splits(s, p, t) { SplitsAt(s, p, t, r); }
    if 0 < r && r + 2 < |s| && p == s[..r] && t == s[r + 2..] { Splitting(s, r); }
  }

  lemma SplitsAt(s: bytes, p: bytes, t: bytes, r: nat)
    requires Splits(s, p, t) && r <= |s| && (r < |s| ==> r + 1 < |s| && s[r] == s[r + 1] == UNDERSCORE)
    requires forall k :: 0 <= k < r && k + 1 < |s| ==> !(s[k] == UNDERSCORE && s[k + 1] == UNDERSCORE)
    ensures 0 < r && r + 2 < |s| && p == s[..r] && t == s[r + 2..]
  {
    assert s[|p|] == s[|p| + 1] == UNDERSCORE;
    assert r == |p|;
  }

  lemma Splitting(s: bytes, r: nat)
    requires 0 < r && r + 2 < |s| && s[r] == s[r + 1] == UNDERSCORE
    requires forall k :: 0 <= k < r ==> !(s[k] == UNDERSCORE && s[k + 1] == UNDERSCORE)
    ensures Splits(s, s[..r], s[r + 2..])
  {
    assert s == s[..r] + [UNDERSCORE, UNDERSCORE] + s[r + 2..];
  }

  lemma BuiltInIff(name: bytes)
    ensures IsBuiltIn(name) <==> name == N.LIST_APPS
  {
    assert Rpc.Text("workspace__list_apps") == N.LIST_APPS;
  }

  /** What a verdict comes to, in the call's own terms. */
  lemma VerdictIs(slots: seq<Slot>, table: seq<Entry>, name: Option<bytes>)
    ensures var v := VerdictOf(slots, table, name);
            && (v == Refused(INVALID_PARAMS, MissingName()) <==> name.None?)
            && (v == Listed <==> name.Some? && IsBuiltIn(name.value))
            && (v == Refused(NOT_FOUND, NoSeparator()) <==> IsMisnamed(name))
            && (v == Refused(NOT_FOUND, NoSuchPrefix()) <==> ForNoApp(name, slots))
            && (v == Refused(REFUSED, TooMany()) <==> ForApp(name, slots) && IsFull(table))
            && (v.Forwarded? <==> ForApp(name, slots) && !IsFull(table))
  {
    FullIff(table, 0);
    if name.Some? {
      BuiltInIff(name.value);
      var r := N.SeparatorIn(name.value, 0);
      forall p, t ensures Splits(name.value, p, t) <==>
                            0 < r && r + 2 < |name.value| && p == name.value[..r] && t == name.value[r + 2..] {
        SplitsIff(name.value, p, t);
      }
      if 0 < r && r + 2 < |name.value| {
        NoAppIff(slots, name.value[..r], 0);
        assert Splits(name.value, name.value[..r], name.value[r + 2..]);
      }
    }
  }

  /** The error replies of a call differ, and none is a listing. */
  lemma RepliesDiffer(id: Json, listing: Json, code: int, text: bytes, code': int, text': bytes)
    requires Rpc.MemberOf(listing, Rpc.ERROR).None?
    ensures Rpc.ErrorReply(id, code, text) == Rpc.ErrorReply(id, code', text') <==> code == code' && text == text'
    ensures Rpc.ErrorReply(id, code, text) != listing
  {
    Rpc.ErrorReads(id, code, text);
    Rpc.ErrorReads(id, code', text');
  }

  /** The fate a verdict gives a call, of a write that works or fails. */
  function FateOf(v: Verdict, id: Json, listing: Json, writeWorks: bool): Fate {
    match v
    case Listed => Ready(listing)
    case Refused(code, text) => Ready(Rpc.ErrorReply(id, code, text))
    case Forwarded(_, _, at) => if writeWorks then Waiting(at) else Ready(Rpc.ErrorReply(id, REFUSED, WriteFailed()))
  }

  lemma AnsweredIs(
      id: Json, listing: Json, name: Option<bytes>, slots: seq<Slot>, table: seq<Entry>, writeWorks: bool)
    requires Rpc.MemberOf(listing, Rpc.ERROR).None?
    ensures Answered(FateOf(VerdictOf(slots, table, name), id, listing, writeWorks), id, listing, name, slots, table,
                     writeWorks)
  {
    VerdictIs(slots, table, name);
    var v := VerdictOf(slots, table, name);
    VerdictKinds(slots, table, name);
    hide VerdictOf, ForApp, ForNoApp, IsMisnamed, IsFull, IsBuiltIn, Rpc.ErrorReply, Rpc.MemberOf;
    forall code, text, code', text' ensures
      && Rpc.ErrorReply(id, code, text) != listing
      && (Rpc.ErrorReply(id, code, text) == Rpc.ErrorReply(id, code', text') <==> code == code' && text == text')
    {
      RepliesDiffer(id, listing, code, text, code', text');
    }
  }

  lemma VerdictKinds(slots: seq<Slot>, table: seq<Entry>, name: Option<bytes>)
    ensures var v := VerdictOf(slots, table, name);
            v.Refused? ==>
              || v == Refused(INVALID_PARAMS, MissingName()) || v == Refused(NOT_FOUND, NoSeparator())
              || v == Refused(NOT_FOUND, NoSuchPrefix()) || v == Refused(REFUSED, TooMany())
  {
  }

  // ---------------------------------------------------------------- what the merged list holds

  /** Tool number `tool` of slot number `slot`. */
  datatype Place = Place(slot: nat, tool: nat)

  ghost predicate IsTool(slots: seq<Slot>, p: Place) {
    p.slot < |slots| && slots[p.slot].Taken? && p.tool < |slots[p.slot].tools|
  }

  /** A live slot's tool that has a name and is shown. */
  ghost predicate IsListed(slots: seq<Slot>, p: Place, diagnostics: bool) {
    && IsTool(slots, p) && Rpc.Shown(slots[p.slot].tools[p.tool], diagnostics)
    && exists n :: Rpc.HasName(slots[p.slot].tools[p.tool], n)
  }

  /** The name the agent sees: prefix, two underscores and the tool's name, cut at 127 bytes. */
  ghost predicate SeenAs(slots: seq<Slot>, p: Place, name: bytes) {
    IsTool(slots, p)
    && exists n :: Rpc.HasName(slots[p.slot].tools[p.tool], n) && name == Seen(slots[p.slot].prefix, n)
  }

  function Seen(prefix: bytes, name: bytes): bytes {
    var full := prefix + [UNDERSCORE, UNDERSCORE] + name;
    if |full| <= 127 then full else full[..127]
  }

  ghost predicate Before(p: Place, q: Place) {
    p.slot < q.slot || (p.slot == q.slot && p.tool < q.tool)
  }

  /** The names are those of the listed tools before `end`, at the places `at`, in order and each once. */
  ghost predicate ListsUpTo(names: seq<bytes>, slots: seq<Slot>, diagnostics: bool, at: seq<Place>, end: Place) {
    && |names| == |at|
    && (forall j :: 0 <= j < |at| ==>
          IsListed(slots, at[j], diagnostics) && SeenAs(slots, at[j], names[j]) && Before(at[j], end))
    && (forall i, j :: 0 <= i < j < |at| ==> Before(at[i], at[j]))
    && (forall p :: IsListed(slots, p, diagnostics) && Before(p, end) ==> p in at)
  }

  /** The built-in first, then the listed tools of all slots, slot by slot and tool by tool, each once. */
  ghost predicate IsListing(names: seq<bytes>, slots: seq<Slot>, diagnostics: bool) {
    && names != [] && IsBuiltIn(names[0])
    && exists at :: ListsUpTo(names[1..], slots, diagnostics, at, Place(|slots|, 0))
  }

  lemma ListedIs(slots: seq<Slot>, p: Place, diagnostics: bool)
    requires IsTool(slots, p)
    ensures var slot := slots[p.slot]; var tool := slot.tools[p.tool];
            && (IsListed(slots, p, diagnostics) <==> Rpc.Exposed(tool, diagnostics) && Rpc.ToolName(tool).Some?)
            && (Rpc.ToolName(tool).Some? ==> SeenAs(slots, p, N.ListedName(slot.prefix, Rpc.ToolName(tool).value)))
  {
    hide Rpc.Exposed, Rpc.Shown, Rpc.HasName, Rpc.ToolName;
    var tool := slots[p.slot].tools[p.tool];
    Rpc.ExposedIff(tool, diagnostics);
    forall n ensures Rpc.ToolName(tool) == Some(n) <==> Rpc.HasName(tool, n) { Rpc.NameIff(tool, n); }
    if Rpc.ToolName(tool).Some? { assert Rpc.HasName(tool, Rpc.ToolName(tool).value); }
  }

  /** One more tool. */
  lemma ListsTool(names: seq<bytes>, slots: seq<Slot>, diagnostics: bool, at: seq<Place>, k: nat, n: nat)
    requires k < |slots| && slots[k].Taken? && n < |slots[k].tools|
    requires ListsUpTo(names, slots, diagnostics, at, Place(k, n))
    ensures var tool := slots[k].tools[n];
            if Rpc.Exposed(tool, diagnostics) && Rpc.ToolName(tool).Some? then
              ListsUpTo(names + [N.ListedName(slots[k].prefix, Rpc.ToolName(tool).value)], slots, diagnostics,
                        at + [Place(k, n)], Place(k, n + 1))
            else ListsUpTo(names, slots, diagnostics, at, Place(k, n + 1))
  {
    ListedIs(slots, Place(k, n), diagnostics);
    hide Rpc.Exposed, Rpc.ToolName, IsListed, SeenAs, N.ListedName;
    forall p | IsListed(slots, p, diagnostics) && Before(p, Place(k, n + 1))
      ensures Before(p, Place(k, n)) || p == Place(k, n)
    {
    }
  }

  lemma {:induction false} ListsSlot(
      names: seq<bytes>, slots: seq<Slot>, diagnostics: bool, at: seq<Place>, k: nat, n: nat) returns (at': seq<Place>)
    requires k < |slots| && slots[k].Taken? && n <= |slots[k].tools|
    requires ListsUpTo(names, slots, diagnostics, at, Place(k, 0))
    ensures ListsUpTo(names + ListedNames(slots[k], n, diagnostics), slots, diagnostics, at', Place(k, n))
    decreases n
  {
    hide ListsUpTo, Rpc.Exposed, Rpc.ToolName, N.ListedName;
    if n == 0 {
      assert names + [] == names;
      at' := at;
    } else {
      var front := ListsSlot(names, slots, diagnostics, at, k, n - 1);
      var done, tool := ListedNames(slots[k], n - 1, diagnostics), slots[k].tools[n - 1];
      ListsTool(names + done, slots, diagnostics, front, k, n - 1);
      if Rpc.Exposed(tool, diagnostics) && Rpc.ToolName(tool).Some? {
        at' := front + [Place(k, n - 1)];
        AppendNames(names, done, [N.ListedName(slots[k].prefix, Rpc.ToolName(tool).value)]);
      } else {
        at' := front;
        assert done + [] == done;
      }
    }
  }

  /** The end of a slot, or a vacant one. */
  lemma SlotPassed(names: seq<bytes>, slots: seq<Slot>, diagnostics: bool, at: seq<Place>, k: nat, n: nat)
    requires k < |slots| && (slots[k].Taken? ==> |slots[k].tools| <= n)
    requires ListsUpTo(names, slots, diagnostics, at, Place(k, n))
    ensures ListsUpTo(names, slots, diagnostics, at, Place(k + 1, 0))
  {
    forall p | IsListed(slots, p, diagnostics) && Before(p, Place(k + 1, 0)) ensures Before(p, Place(k, n)) {
    }
    hide IsListed, SeenAs;
  }

  lemma {:induction false} ListsSlots(slots: seq<Slot>, diagnostics: bool, n: nat) returns (at: seq<Place>)
    requires n <= |slots|
    ensures ListsUpTo(MergedNames(slots, n, diagnostics), slots, diagnostics, at, Place(n, 0))
    decreases n
  {
    hide ListsUpTo, ListedNames;
    if n == 0 {
      at := [];
      NothingListed(slots, diagnostics);
    } else {
      at := ListsSlots(slots, diagnostics, n - 1);
      var done, slot := MergedNames(slots, n - 1, diagnostics), slots[n - 1];
      if slot.Taken? {
        at := ListsSlot(done, slots, diagnostics, at, n - 1, |slot.tools|);
        SlotPassed(MergedNames(slots, n, diagnostics), slots, diagnostics, at, n - 1, |slot.tools|);
      } else {
        assert done + [] == done;
        SlotPassed(done, slots, diagnostics, at, n - 1, 0);
      }
    }
  }

  lemma NothingListed(slots: seq<Slot>, diagnostics: bool)
    ensures ListsUpTo([], slots, diagnostics, [], Place(0, 0))
  {
  }

  lemma MergedIsListing(slots: seq<Slot>, diagnostics: bool)
    ensures IsListing([N.LIST_APPS] + MergedNames(slots, |slots|, diagnostics), slots, diagnostics)
  {
    hide ListsUpTo, MergedNames;
    var at := ListsSlots(slots, diagnostics, |slots|);
    BuiltInIff(N.LIST_APPS);
    var names := [N.LIST_APPS] + MergedNames(slots, |slots|, diagnostics);
    assert names[1..] == MergedNames(slots, |slots|, diagnostics);
  }

  class Aggregator {
    // The source's own state.
    const exposeDiagnostics: bool
    var backends: seq<Slot>
    var inflight: seq<Entry>
    var nextLocalId: nat
    var usedPrefixes: seq<bytes>
    var connecting: seq<int>
    var shellConnecting: bool
    var agentInitialized: bool
    var framingLatched: bool
    // What threads hold between steps, and what numbers calls, connections and names over the run.
    var stdout: seq<Out>
    var asked: seq<Json>
    var fate: seq<Fate>
    var homes: seq<nat>
    var reading: seq<bool>
    var setups: map<int, Phase>
    var shellSetup: Option<Phase>
    var namings: seq<Naming>
    // History that only the contracts speak of.
    ghost var crossed: set<nat>
    ghost var requests: seq<Request>
    ghost var issued: seq<Issue>
    ghost var sent: seq<Sent>
    ghost var heard: seq<Heard>
    ghost var slugs: seq<bytes>
    ghost var seat: map<int, nat>
    ghost var shellSeat: Option<nat>

    /** The in-flight table and the calls. */
    ghost predicate Calls()
      reads this`backends, this`homes, this`inflight, this`nextLocalId, this`issued, this`asked, this`stdout, this`fate,
            this`crossed, this`sent, this`framingLatched, this`agentInitialized
    {
      && |backends| == MAX_BACKENDS && |inflight| == MAX_INFLIGHT && nextLocalId == |issued|
      && TableOk(inflight, backends, issued)
      && FatesOk(inflight, asked, stdout, fate, crossed)
      && SentOk(sent, issued)
      && HomesOk(backends, homes)
      && (!framingLatched ==> stdout == [] && asked == [] && !agentInitialized)
    }

    /** The request for every call in flight was written to its backend. */
    ghost predicate Requested()
      reads this`inflight, this`issued, this`asked, this`requests, this`sent
    {
      |requests| == |asked| && CallsSent(inflight, issued, requests, sent, |inflight|)
    }

    /** The slots, their readers, and the setups under way. */
    ghost predicate Members()
      reads this`backends, this`reading, this`seat, this`shellSeat, this`connecting, this`shellConnecting, this`setups,
            this`shellSetup
    {
      && |backends| == |reading| == MAX_BACKENDS
      && SeatsOk(backends, seat, shellSeat)
      && SetupsOk(connecting, shellConnecting, setups, shellSetup, seat, shellSeat)
      && reading == Live(backends)
    }

    /** Every slot has the name last given to it. */
    ghost predicate Labelled()
      reads this`backends, this`namings
    {
      SlotNamesOk(backends, namings)
    }

    /** The registry and the names given out are those of the slugs asked for. */
    ghost predicate Named()
      reads this`usedPrefixes, this`namings, this`slugs
    {
      N.After(slugs).used == usedPrefixes && N.After(slugs).given == Names(namings)
    }

    ghost predicate Valid()
      reads this
    {
      Calls() && Requested() && Members() && Labelled() && Named()
    }

    constructor (exposeDiagnostics: bool)
      ensures Valid() && this.exposeDiagnostics == exposeDiagnostics
      ensures asked == [] && fate == [] && stdout == [] && sent == [] && heard == [] && crossed == {}
      ensures connecting == [] && setups == map[] && !shellConnecting && shellSetup.None? && seat == map[]
      ensures shellSeat.None? && usedPrefixes == [] && slugs == [] && namings == [] && homes == []
      ensures forall i :: 0 <= i < |backends| ==> backends[i] == Vacant
      ensures forall i :: 0 <= i < |inflight| ==> inflight[i] == Free
      ensures nextLocalId == 0 && |backends| == |reading| == MAX_BACKENDS && |inflight| == MAX_INFLIGHT
    {
      this.exposeDiagnostics := exposeDiagnostics;
      backends := seq(MAX_BACKENDS, _ => Vacant);
      reading := seq(MAX_BACKENDS, _ => false);
      inflight := seq(MAX_INFLIGHT, _ => Free);
      nextLocalId, homes := 0, [];
      usedPrefixes, connecting, namings := [], [], [];
      shellConnecting, agentInitialized, framingLatched := false, false, false;
      stdout, asked, fate := [], [], [];
      setups, shellSetup := map[], None;
      crossed, requests, issued, sent, heard, slugs := {}, [], [], [], [], [];
      seat, shellSeat := map[], None;
      new;
      EntriesAreOk(inflight, backends, issued, |inflight|);
      NoneSent(inflight, issued, requests, sent, |inflight|);
      HomesBelowIff(backends, homes, |backends|);
      FatesOkIff(inflight, asked, stdout, fate, crossed);
      NamedBelowIff(backends, namings, |backends|);
      SeatsOkIff(backends, seat, shellSeat);
      assert Elements(connecting) == {} == Busy(setups);
      assert reading == Live(backends);
    }

    // -------------------------------------------------------------- searches

    method FindBackend(prefix: bytes) returns (k: nat)
      ensures k == PickFrom(backends, prefix, 0)
    {
      k := 0;
      while k < |backends| && !(backends[k].Taken? && backends[k].prefix == prefix)
        invariant k <= |backends| && PickFrom(backends, prefix, 0) == PickFrom(backends, prefix, k)
      {
        k := k + 1;
      }
    }

    method FindVacant() returns (k: nat)
      ensures k == VacantFrom(backends, 0)
    {
      k := 0;
      while k < |backends| && backends[k].Taken?
        invariant k <= |backends| && VacantFrom(backends, 0) == VacantFrom(backends, k)
      {
        k := k + 1;
      }
    }

    method FindFree() returns (k: nat)
      ensures k == FreeFrom(inflight, 0)
    {
      k := 0;
      while k < |inflight| && !inflight[k].Free?
        invariant k <= |inflight| && FreeFrom(inflight, 0) == FreeFrom(inflight, k)
      {
        k := k + 1;
      }
    }

    method FindEntry(id: nat) returns (k: nat)
      ensures k == EntryFrom(inflight, id, 0)
    {
      k := 0;
      while k < |inflight| && !(!inflight[k].Free? && inflight[k].id == id)
        invariant k <= |inflight| && EntryFrom(inflight, id, 0) == EntryFrom(inflight, id, k)
      {
        k := k + 1;
      }
    }

    // -------------------------------------------------------------- the agent's side

    /** An answer the agent thread is about to write, without the table having been touched. */
    method Refuse(id: Json, message: Json, ghost request: Request)
      requires Calls() && Requested() && framingLatched && Rpc.IdOf(message) == Some(id)
      modifies this`asked, this`fate, this`requests
      ensures Calls() && Requested() && asked == old(asked) + [id] && fate == old(fate) + [Ready(message)]
      ensures requests == old(requests) + [request]
    {
      CallRefused(inflight, asked, stdout, fate, crossed, id, message);
      CallsSentGrow(inflight, issued, requests, sent, issued, requests + [request], sent, |inflight|);
      asked, fate := asked + [id], fate + [Ready(message)];
      requests := requests + [request];
    }

    /** Enters the agent's next call, for slot `k`, in the free entry `at`, under the next local id. */
    method EnterCall(at: nat, k: nat, id: Json, ghost request: Request)
      requires Calls() && framingLatched
      requires at < |inflight| && inflight[at].Free? && k < |backends| && backends[k].Taken?
      modifies this`inflight, this`nextLocalId, this`issued, this`asked, this`fate, this`requests
      ensures Calls() && nextLocalId == old(nextLocalId) + 1
      ensures issued == old(issued) + [Issue(backends[k].conn, Some(|old(asked)|), at)]
      ensures inflight == old(inflight)[at := Call(nextLocalId, k, id, |old(asked)|)]
      ensures asked == old(asked) + [id] && fate == old(fate) + [Waiting(at)] && requests == old(requests) + [request]
    {
      hide TableOk, SentOk, HomesOk, SeatsOk, SetupsOk, SlotNamesOk;
      var e := Call(nextLocalId + 1, k, id, |asked|);
      EntryAdded(inflight, backends, issued, at, e);
      CallForwarded(inflight, asked, stdout, fate, crossed, id, at, e);
      SentGrows(sent, issued, Issue(backends[k].conn, Some(|asked|), at), Sent(0, 0, Null));
      issued, requests := issued + [Issue(backends[k].conn, Some(|asked|), at)], requests + [request];
      nextLocalId, inflight, asked, fate := nextLocalId + 1, inflight[at := e], asked + [id], fate + [Waiting(at)];
    }

    /** Enters a tools/list request for slot `k` in the free entry `at`, under the next local id. */
    method EnterRefresh(at: nat, k: nat)
      requires Calls() && Requested()
      requires at < |inflight| && inflight[at].Free? && k < |backends| && backends[k].Taken?
      modifies this`inflight, this`nextLocalId, this`issued
      ensures Calls() && Requested() && nextLocalId == old(nextLocalId) + 1
      ensures issued == old(issued) + [Issue(backends[k].conn, None, at)]
      ensures inflight == old(inflight)[at := Refresh(nextLocalId, k)]
    {
      var e := Refresh(nextLocalId + 1, k);
      ghost var issue := Issue(backends[k].conn, None, at);
      EntryAdded(inflight, backends, issued, at, e);
      OtherEntry(inflight, asked, stdout, fate, crossed, at, e);
      SentGrows(sent, issued, issue, Sent(0, 0, Null));
      CallsSentGrow(inflight, issued, requests, sent, issued + [issue], requests, sent, |inflight|);
      CallsSentWith(inflight, issued + [issue], requests, sent, at, e, |inflight|);
      issued := issued + [issue];
      nextLocalId, inflight := nextLocalId + 1, inflight[at := e];
    }

    /** Frees an entry; a call in it goes on to `f`. */
    method Release(at: nat, f: Fate)
      requires Calls() && at < |inflight| && !inflight[at].Free?
      requires inflight[at].Call? ==> f.Lost? || (f.Ready? && Rpc.IdOf(f.message) == Some(inflight[at].origId))
      modifies this`inflight, this`fate, this`crossed
      ensures Calls() && inflight == old(inflight)[at := Free]
      ensures old(Requested()) ==> Requested()
      ensures old(inflight[at].Call?) ==>
                old(inflight[at].ticket) < |old(fate)| && fate == old(fate)[old(inflight[at].ticket) := f]
      ensures old(inflight[at].Refresh?) ==> fate == old(fate)
      ensures crossed == old(crossed) + if old(inflight[at].Call?) && f.Lost? then {old(inflight[at].ticket)} else {}
    {
      EntryFreed(inflight, backends, issued, at);
      if Requested() { CallsSentWith(inflight, issued, requests, sent, at, Free, |inflight|); }
      if inflight[at].Call? {
        var t := inflight[at].ticket;
        CallReleased(inflight, asked, stdout, fate, crossed, at, f);
        crossed := if f.Lost? then crossed + {t} else crossed;
        inflight, fate := inflight[at := Free], fate[t := f];
      } else {
        OtherEntry(inflight, asked, stdout, fate, crossed, at, Free);
        inflight := inflight[at := Free];
      }
    }

    /** Looks the call up: the slot, tool and entry it gets, or why it gets none. */
    method Judge(name: Option<bytes>) returns (v: Verdict)
      ensures v == VerdictOf(backends, inflight, name)
    {
      if name.None? {
        return Refused(INVALID_PARAMS, MissingName());
      }
      if name.value == N.LIST_APPS {
        return Listed;
      }
      var sep := N.FindSeparator(name.value);
      if sep == |name.value| || sep == 0 || sep + 2 == |name.value| {
        return Refused(NOT_FOUND, NoSeparator());
      }
      var k := FindBackend(name.value[..sep]);
      if k == |backends| {
        return Refused(NOT_FOUND, NoSuchPrefix());
      }
      var at := FindFree();
      if at == |inflight| {
        return Refused(REFUSED, TooMany());
      }
      return Forwarded(k, name.value[sep + 2..], at);
    }

    /** The call entered last is sent to its backend as a call of `tool`. */
    method SendCall(at: nat, k: nat, tool: bytes, arguments: Option<Json>, ghost before: seq<Entry>)
      requires Calls() && |requests| == |asked| > 0 && at < |inflight| && |before| == |inflight|
      requires inflight[at].Call? && inflight == before[at := inflight[at]]
               && CallsSent(before, issued, requests, sent, |before|)
      requires inflight[at].id == nextLocalId && inflight[at].ticket == |asked| - 1 && inflight[at].slot == k
      requires k < |backends| && backends[k].Taken? && 0 < |issued| == nextLocalId
               && SentOk(sent, issued[..|issued| - 1])
      requires ToolOf(requests[|asked| - 1]) == Some(tool) && requests[|asked| - 1].arguments == arguments
      modifies this`sent
      ensures Calls() && Requested()
      ensures sent == old(sent) + [Sent(backends[k].conn, nextLocalId, Rpc.CallRequest(nextLocalId, tool, arguments))]
    {
      ghost var request := Sent(backends[k].conn, nextLocalId, Rpc.CallRequest(nextLocalId, tool, arguments));
      Rpc.RequestReads(nextLocalId, tool, arguments);
      EntryIsOk(inflight, backends, issued, |inflight|, at);
      assert issued == issued[..|issued| - 1] + [issued[|issued| - 1]];
      SentGrows(sent, issued[..|issued| - 1], issued[|issued| - 1], request);
      CallsSentGrow(before, issued, requests, sent, issued, requests, sent + [request], |before|);
      CallsSentWith(before, issued, requests, sent + [request], at, inflight[at], |before|);
      sent := sent + [request];
    }

    /** The call goes to slot `k` as its tool's; if the write to the backend fails it is refused after all. */
    method Forward(k: nat, tool: bytes, arguments: Option<Json>, at: nat, id: Json, writeWorks: bool,
        ghost request: Request)
      requires Calls() && Requested() && framingLatched && ToolOf(request) == Some(tool)
               && request.arguments == arguments
      requires at < |inflight| && inflight[at].Free? && k < |backends| && backends[k].Taken?
      modifies this`asked, this`fate, this`inflight, this`nextLocalId, this`issued, this`crossed, this`sent,
               this`requests
      ensures Calls() && Requested() && asked == old(asked) + [id] && requests == old(requests) + [request]
      ensures crossed == old(crossed) && nextLocalId == old(nextLocalId) + 1
      ensures issued == old(issued) + [Issue(backends[k].conn, Some(|old(asked)|), at)]
      ensures inflight == if writeWorks then old(inflight)[at := Call(nextLocalId, k, id, |old(asked)|)]
              else old(inflight)
      ensures fate == old(fate) + [if writeWorks then Waiting(at)
              else Ready(Rpc.ErrorReply(id, REFUSED, WriteFailed()))]
      ensures sent == old(sent) + if writeWorks then
                                    [Sent(backends[k].conn, nextLocalId, Rpc.CallRequest(nextLocalId, tool, arguments))]
                                  else []
    {
      ghost var before, issued', requests' :=
        inflight, issued + [Issue(backends[k].conn, Some(|asked|), at)], requests + [request];
      CallsSentGrow(before, issued, requests, sent, issued', requests', sent, |before|);
      assert issued'[..|issued|] == issued;
      EnterCall(at, k, id, request);
      if writeWorks {
        SendCall(at, k, tool, arguments, before);
      } else {
        Rpc.ErrorReads(id, REFUSED, WriteFailed());
        Release(at, Ready(Rpc.ErrorReply(id, REFUSED, WriteFailed())));
        assert inflight == before;
      }
    }

    /** The call is judged, and refused, answered or forwarded. */
    method TakeCall(name: Option<bytes>, arguments: Option<Json>, id: Json, listing: Json, writeWorks: bool)
      requires Calls() && Requested() && Rpc.IdOf(listing) == Some(id)
      modifies this`framingLatched, this`asked, this`fate, this`inflight, this`nextLocalId, this`issued, this`crossed,
               this`sent, this`requests
      ensures Calls() && Requested() && framingLatched && asked == old(asked) + [id] && crossed == old(crossed)
      ensures requests == old(requests) + [Request(name, arguments)]
      ensures match old(VerdictOf(backends, inflight, name))
              case Listed =>
                fate == old(fate) + [Ready(listing)] && inflight == old(inflight) && issued == old(issued)
                  && sent == old(sent)
              case Refused(code, text) =>
                && fate == old(fate) + [Ready(Rpc.ErrorReply(id, code, text))]
                && inflight == old(inflight) && issued == old(issued) && sent == old(sent)
              case Forwarded(k, tool, at) =>
                && issued == old(issued) + [Issue(backends[k].conn, Some(|old(asked)|), at)]
                && if writeWorks then
                     && fate == old(fate) + [Waiting(at)]
                     && inflight == old(inflight)[at := Call(nextLocalId, k, id, |old(asked)|)]
                     && sent == old(sent) + [Sent(backends[k].conn, nextLocalId,
                                                  Rpc.CallRequest(nextLocalId, tool, arguments))]
                   else
                     && fate == old(fate) + [Ready(Rpc.ErrorReply(id, REFUSED, WriteFailed()))]
                     && inflight == old(inflight) && sent == old(sent)
    {
      framingLatched := true;
      var v := Judge(name);
      match v
      case Listed => Refuse(id, listing, Request(name, arguments));
      case Refused(code, text) =>
        Rpc.ErrorReads(id, code, text);
        Refuse(id, Rpc.ErrorReply(id, code, text), Request(name, arguments));
      case Forwarded(k, tool, at) => Forward(k, tool, arguments, at, id, writeWorks, Request(name, arguments));
    }

    /**
     * A tools/call of the agent: refused, answered by the aggregator itself, or forwarded under a
     * new local id.
     */
    method CallTool(name: Option<bytes>, arguments: Option<Json>, id: Json, listing: Json, writeWorks: bool)
      requires Calls() && Requested() && Rpc.IdOf(listing) == Some(id)
      modifies this`framingLatched, this`asked, this`fate, this`inflight, this`nextLocalId, this`issued, this`crossed,
               this`sent, this`requests
      ensures Calls() && Requested() && framingLatched && asked == old(asked) + [id] && crossed == old(crossed)
      ensures requests == old(requests) + [Request(name, arguments)]
      ensures Rpc.MemberOf(listing, Rpc.ERROR).None? ==>
                |fate| == |old(fate)| + 1 &&
                Answered(fate[|old(fate)|], id, listing, name, old(backends), old(inflight), writeWorks)
      ensures match old(VerdictOf(backends, inflight, name))
              case Listed =>
                fate == old(fate) + [Ready(listing)] && inflight == old(inflight) && issued == old(issued)
                  && sent == old(sent)
              case Refused(code, text) =>
                && fate == old(fate) + [Ready(Rpc.ErrorReply(id, code, text))]
                && inflight == old(inflight) && issued == old(issued) && sent == old(sent)
              case Forwarded(k, tool, at) =>
                && issued == old(issued) + [Issue(backends[k].conn, Some(|old(asked)|), at)]
                && if writeWorks then
                     && fate == old(fate) + [Waiting(at)]
                     && inflight == old(inflight)[at := Call(nextLocalId, k, id, |old(asked)|)]
                     && sent == old(sent) + [Sent(backends[k].conn, nextLocalId,
                                                  Rpc.CallRequest(nextLocalId, tool, arguments))]
                   else
                     && fate == old(fate) + [Ready(Rpc.ErrorReply(id, REFUSED, WriteFailed()))]
                     && inflight == old(inflight) && sent == old(sent)
    {
      if Rpc.MemberOf(listing, Rpc.ERROR).None? { AnsweredIs(id, listing, name, backends, inflight, writeWorks); }
      hide Answered, VerdictOf, Calls, Requested, Rpc.MemberOf, Rpc.ErrorReply;
      TakeCall(name, arguments, id, listing, writeWorks);
    }

    /** Any other request: the reply, written by the agent thread itself. */
    method Respond(message: Json)
      requires Calls()
      modifies this`framingLatched, this`stdout
      ensures Calls() && framingLatched && stdout == old(stdout) + [Reply(message)]
    {
      OtherWritten(inflight, asked, stdout, fate, crossed, Reply(message));
      framingLatched, stdout := true, stdout + [Reply(message)];
    }

    /** The end of an initialize request, after its reply. */
    method MarkInitialized()
      requires Calls() && framingLatched
      modifies this`agentInitialized
      ensures Calls() && agentInitialized
    {
      agentInitialized := true;
    }

    /** A thread writes the answer it holds. */
    method Emit(t: nat)
      requires Calls() && t < |fate| && fate[t].Ready?
      modifies this`stdout, this`fate
      ensures framingLatched
      ensures Calls() && stdout == old(stdout) + [Answer(t, old(fate[t].message))]
      ensures fate == old(fate)[t := Written(|old(stdout)|)]
    {
      AnswerWritten(inflight, asked, stdout, fate, crossed, t);
      var message := fate[t].message;
      stdout, fate := stdout + [Answer(t, message)], fate[t := Written(|stdout|)];
    }

    /** `emit_list_changed_upstream`: silent until the agent has initialized. */
    method NotifyListChanged()
      requires Calls()
      modifies this`stdout
      ensures agentInitialized ==> framingLatched
      ensures Calls() && stdout == old(stdout) + if agentInitialized then [ListChanged] else []
    {
      if agentInitialized {
        OtherWritten(inflight, asked, stdout, fate, crossed, ListChanged);
        stdout := stdout + [ListChanged];
      }
    }

    /**
     * A call in the table is the agent's call of that number, and the request for it was written to the
     * slot's present connection under that local id.
     */
    lemma CallInTable(at: nat)
      requires Calls() && at < |inflight| && inflight[at].Call?
      ensures var e := inflight[at];
              && 1 <= e.id <= |issued| && e.slot < |backends| && backends[e.slot].Taken?
              && issued[e.id - 1] == Issue(backends[e.slot].conn, Some(e.ticket), at)
              && e.ticket < |fate| && e.origId == asked[e.ticket] && fate[e.ticket] == Waiting(at)
      ensures Requested() ==>
                var e := inflight[at];
                && e.ticket < |requests| && ToolOf(requests[e.ticket]).Some?
                && Sent(backends[e.slot].conn, e.id, Rpc.CallRequest(
                          e.id, ToolOf(requests[e.ticket]).value, requests[e.ticket].arguments)) in sent
    {
      EntryIsOk(inflight, backends, issued, |inflight|, at);
      FatesOkIff(inflight, asked, stdout, fate, crossed);
      assert FateOk(inflight, asked, stdout, fate, inflight[at].ticket);
      if Requested() { CallIsSent(inflight, issued, requests, sent, |inflight|, at); }
    }

    // -------------------------------------------------------------- a backend's reader

    /** A tools/list request under the id just issued goes out to slot `k`. */
    method SendRefresh(k: nat)
      requires Calls() && Requested() && 0 < |issued| == nextLocalId && SentOk(sent, issued[..|issued| - 1])
      requires k < |backends| && backends[k].Taken? && issued[|issued| - 1].conn == backends[k].conn
      modifies this`sent
      ensures Calls() && Requested()
      ensures sent == old(sent) + [Sent(backends[k].conn, nextLocalId, Rpc.ListRequest(nextLocalId))]
    {
      ghost var request := Sent(backends[k].conn, nextLocalId, Rpc.ListRequest(nextLocalId));
      Rpc.LookupAt(request.request.members, Rpc.ID, 1);
      assert issued == issued[..|issued| - 1] + [issued[|issued| - 1]];
      SentGrows(sent, issued[..|issued| - 1], issued[|issued| - 1], request);
      CallsSentGrow(inflight, issued, requests, sent, issued, requests, sent + [request], |inflight|);
      sent := sent + [request];
    }

    /** Asks the backend for its tools again; gives up if the table is full or the write fails. */
    method RefreshTools(idx: nat, writeWorks: bool)
      requires Calls() && Requested() && idx < |backends|
      modifies this`inflight, this`nextLocalId, this`issued, this`fate, this`crossed, this`sent
      ensures Calls() && Requested() && fate == old(fate) && crossed == old(crossed)
      ensures var at := FreeFrom(old(inflight), 0);
              if backends[idx].Vacant? || at == MAX_INFLIGHT then
                inflight == old(inflight) && nextLocalId == old(nextLocalId) && issued == old(issued)
                  && sent == old(sent)
              else
                && nextLocalId == old(nextLocalId) + 1 && issued == old(issued) + [Issue(backends[idx].conn, None, at)]
                && if writeWorks then
                     && inflight == old(inflight)[at := Refresh(nextLocalId, idx)]
                     && sent == old(sent) + [Sent(backends[idx].conn, nextLocalId, Rpc.ListRequest(nextLocalId))]
                   else
                     inflight == old(inflight) && sent == old(sent)
    {
      if backends[idx].Vacant? {
        return;
      }
      var at := FindFree();
      if at == |inflight| {
        return;
      }
      ghost var before := issued;
      EnterRefresh(at, idx);
      assert issued[..|issued| - 1] == before;
      if writeWorks {
        SendRefresh(idx);
      } else {
        Release(at, Lost);
      }
    }

    /**
     * A response read from backend `idx` under `localId`: its entry is freed whatever it was for; a
     * call of this very backend gets the response under the agent's id, another's call is lost.
     */
    method Receive(idx: nat, localId: nat, message: Json) returns (refreshed: bool)
      requires Calls() && Requested() && idx < |backends| && Rpc.RespondsTo(message, localId)
      modifies this`inflight, this`fate, this`crossed, this`heard
      ensures Calls() && Requested()
      ensures heard == old(heard) + [Heard(ConnOf(backends[idx]), localId)]
      ensures crossed != old(crossed) ==> Misplaced(Heard(ConnOf(backends[idx]), localId), issued)
      ensures var at := EntryFrom(old(inflight), localId, 0);
              if at == MAX_INFLIGHT then
                !refreshed && inflight == old(inflight) && fate == old(fate) && crossed == old(crossed)
              else
                var e := old(inflight)[at];
                && inflight == old(inflight)[at := Free]
                && (refreshed <==> e.Refresh? && e.slot == idx)
                && (e.Refresh? ==> fate == old(fate) && crossed == old(crossed))
                && (e.Call? ==> e.ticket < |old(fate)|)
                && (e.Call? && e.slot == idx ==>
                      fate == old(fate)[e.ticket := Ready(Rpc.WithId(message, e.origId))] && crossed == old(crossed))
                && (e.Call? && e.slot == idx ==>
                   backends[idx].Taken? && Answers(e, localId, backends[idx].conn, message))
                && (e.Call? && e.slot != idx ==>
                      fate == old(fate)[e.ticket := Lost] && crossed == old(crossed) + {e.ticket})
    {
      heard := heard + [Heard(ConnOf(backends[idx]), localId)];
      var at := FindEntry(localId);
      if at == |inflight| {
        return false;
      }
      var e := inflight[at];
      if e.slot != idx { CrossedIsMisplaced(idx, localId); }
      refreshed := e.Refresh? && e.slot == idx;
      if e.Call? && e.slot == idx {
        Rpc.RelayedMessage(message, e.origId, Rpc.ID);
        CallInTable(at);
        Release(at, Ready(Rpc.WithId(message, e.origId)));
      } else {
        Release(at, Lost);
      }
    }

    /**
     * The entry's call was written to connection `conn` under `localId` as a call of its tool with its
     * arguments, and the relayed message carries the id the agent gave it.
     */
    ghost predicate Answers(e: Entry, localId: nat, conn: nat, message: Json)
      requires e.Call?
      reads this`issued, this`asked, this`requests, this`sent
    {
      && e.id == localId && 1 <= localId <= |issued| && issued[localId - 1].conn == conn
      && issued[localId - 1].ticket == Some(e.ticket) && e.ticket < |asked| && e.ticket < |requests|
      && ToolOf(requests[e.ticket]).Some?
      && Sent(conn, localId, Rpc.CallRequest(localId, ToolOf(requests[e.ticket]).value,
         requests[e.ticket].arguments)) in sent
      && e.origId == asked[e.ticket] && Rpc.IdOf(Rpc.WithId(message, e.origId)) == Some(asked[e.ticket])
    }

    /** An answer to another slot's entry carries an id issued for another connection than it comes from. */
    lemma CrossedIsMisplaced(idx: nat, localId: nat)
      requires Calls() && idx < |backends| && EntryFrom(inflight, localId, 0) < |inflight|
      requires inflight[EntryFrom(inflight, localId, 0)].slot != idx
      ensures Misplaced(Heard(ConnOf(backends[idx]), localId), issued)
    {
      var at := EntryFrom(inflight, localId, 0);
      EntryIsOk(inflight, backends, issued, |inflight|, at);
      if backends[idx].Taken? && backends[inflight[at].slot].conn == backends[idx].conn {
        OneHomeEach(backends, homes, inflight[at].slot, idx);
      }
    }

    /** A backend that answers an id its own connection was sent never takes another's call. */
    lemma HonestAnswer(idx: nat, localId: nat)
      requires Calls() && idx < |backends| && WasSent(Heard(ConnOf(backends[idx]), localId), sent)
      ensures var at := EntryFrom(inflight, localId, 0); at < |inflight| ==> inflight[at].slot == idx
    {
      var at := EntryFrom(inflight, localId, 0);
      SentIsPlaced(Heard(ConnOf(backends[idx]), localId), sent, issued);
      if at < |inflight| && inflight[at].slot != idx { CrossedIsMisplaced(idx, localId); }
    }

    /** With no backend left, every call has been answered, is about to be, or was lost to a crossed answer. */
    lemma NobodyLeftHanging(t: nat)
      requires Calls() && t < |asked| && forall k :: 0 <= k < |backends| ==> backends[k].Vacant?
      ensures |fate| == |asked| && (fate[t].Ready? || fate[t].Written? || t in crossed)
    {
      FatesOkIff(inflight, asked, stdout, fate, crossed);
      assert FateOk(inflight, asked, stdout, fate, t);
      if fate[t].Waiting? {
        EntryIsOk(inflight, backends, issued, |inflight|, fate[t].at);
      }
    }

    // -------------------------------------------------------------- the merged tool list

    /** The names of slot `k`'s tools as the agent sees them: the exposed ones that have a name. */
    method ListSlot(k: nat) returns (names: seq<bytes>)
      requires k < |backends| && backends[k].Taken?
      ensures names == ListedNames(backends[k], |backends[k].tools|, exposeDiagnostics)
    {
      names := [];
      var i := 0;
      while i < |backends[k].tools|
        invariant i <= |backends[k].tools| && names == ListedNames(backends[k], i, exposeDiagnostics)
      {
        var tool := backends[k].tools[i];
        if Rpc.Exposed(tool, exposeDiagnostics) && Rpc.ToolName(tool).Some? {
          names := names + [N.ListedName(backends[k].prefix, Rpc.ToolName(tool).value)];
        }
        i := i + 1;
      }
    }

    /** The names of the merged list: the aggregator's own tool first, then slot by slot. */
    method ListTools() returns (names: seq<bytes>)
      ensures names == [N.LIST_APPS] + MergedNames(backends, |backends|, exposeDiagnostics)
      ensures IsListing(names, backends, exposeDiagnostics)
    {
      hide IsListing;
      MergedIsListing(backends, exposeDiagnostics);
      names := [N.LIST_APPS];
      var k := 0;
      while k < |backends|
        invariant k <= |backends| && names == [N.LIST_APPS] + MergedNames(backends, k, exposeDiagnostics)
      {
        if backends[k].Taken? {
          var more := ListSlot(k);
          AppendNames([N.LIST_APPS], MergedNames(backends, k, exposeDiagnostics), more);
          names := names + more;
        }
        k := k + 1;
      }
    }

    /** The slot's prefix leads to this slot: no earlier slot has it. */
    ghost predicate OwnsPrefix(k: nat)
      requires k < |backends| && backends[k].Taken?
      reads this`backends
    {
      forall j :: 0 <= j < k ==> backends[j].Taken? ==> backends[j].prefix != backends[k].prefix
    }

    /** Exactly when prefixes lead to their slots, while no name was given out twice: but for the shell's, always. */
    lemma PrefixesOwned(k: nat)
      requires Labelled() && Named() && N.NeverReused(slugs) && k < |backends| && backends[k].Taken?
      ensures OwnsPrefix(k) <==>
              (backends[k].prefix == SHELL ==> forall j :: 0 <= j < k && backends[j].Taken? ==>
                backends[j].prefix != SHELL)
    {
      NamedBelowIff(backends, namings, |backends|);
      N.NamesApartIff(slugs);
      forall j | 0 <= j < k && backends[j].Taken? && backends[j].prefix == backends[k].prefix
        ensures backends[k].prefix == SHELL
      {
        assert SlotNameOk(backends[j], j, namings) && SlotNameOk(backends[k], k, namings);
        if backends[k].prefix != SHELL { LiveNamesDiffer(backends, namings, j, k); }
      }
    }

    /**
     * The shell's prefix is never entered in the registry, so an app may get it too; of the two slots the
     * later one is then not reached by its prefix.
     */
    lemma ShellCollides(j: nat, k: nat)
      requires Labelled() && j < |backends| && k < |backends| && backends[j].Taken? && backends[k].Taken?
      requires backends[j].isShell && !backends[k].isShell
      ensures SHELL !in usedPrefixes ==> N.Assigned(usedPrefixes, SHELL) == SHELL
      ensures backends[k].prefix == SHELL ==> j != k && !OwnsPrefix(if j < k then k else j)
    {
      NamedBelowIff(backends, namings, |backends|);
      assert SlotNameOk(backends[j], j, namings);
      if SHELL !in usedPrefixes { assert N.Candidate(SHELL, 1) !in usedPrefixes; }
      if backends[k].prefix == SHELL { assert backends[j].prefix == backends[k].prefix; }
    }

    /** The search by a slot's prefix ends at this slot exactly if it owns the prefix. */
    lemma {:induction false} PickOwner(k: nat, i: nat)
      requires i <= k < |backends| && backends[k].Taken?
      requires forall j :: 0 <= j < i ==> backends[j].Taken? ==> backends[j].prefix != backends[k].prefix
      ensures PickFrom(backends, backends[k].prefix, i) == k <==> OwnsPrefix(k)
      decreases k - i
    {
      if i < k && !(backends[i].Taken? && backends[i].prefix == backends[k].prefix) { PickOwner(k, i + 1); }
    }

    /**
     * Exactly when a call by a listed name goes to the backend that listed it, under the tool's own name:
     * the prefix is its own, the name was not cut and is not the built-in's, and there is a free entry.
     */
    lemma ListedToolRoutes(k: nat, tool: bytes)
      requires Labelled() && k < |backends| && backends[k].Taken? && tool != []
      ensures VerdictOf(backends, inflight, Some(N.ListedName(backends[k].prefix, tool)))
              == Forwarded(k, tool, FreeFrom(inflight, 0)) <==>
              && OwnsPrefix(k) && |backends[k].prefix| + 2 + |tool| <= N.NAME_LIMIT
              && backends[k].prefix + N.SEPARATOR + tool != N.LIST_APPS && FreeFrom(inflight, 0) < |inflight|
    {
      NamedBelowIff(backends, namings, |backends|);
      assert SlotNameOk(backends[k], k, namings);
      N.ListedNameRoutes(backends[k].prefix, tool);
      PickOwner(k, 0);
    }

    /** Fails the entry at `at`: the agent is told while the lock is still held. */
    method FailEntry(at: nat)
      requires Calls() && Requested() && at < |inflight| && !inflight[at].Free?
      modifies this`inflight, this`fate, this`crossed, this`stdout
      ensures Calls() && Requested() && inflight == old(inflight)[at := Free] && crossed == old(crossed)
      ensures old(inflight[at].Refresh?) ==> fate == old(fate) && stdout == old(stdout)
      ensures old(inflight[at].Call?) ==>
                && framingLatched && old(inflight[at].ticket) < |old(fate)|
                && fate == old(fate)[old(inflight[at].ticket) := Written(|old(stdout)|)]
                && stdout == old(stdout) + [Failure(old(inflight[at]))]
    {
      var e := inflight[at];
      if e.Call? {
        Rpc.ErrorReads(e.origId, REFUSED, BackendExited());
        Release(at, Ready(Rpc.ErrorReply(e.origId, REFUSED, BackendExited())));
        Emit(e.ticket);
      } else {
        Release(at, Lost);
      }
    }

    /** Some thread writes to the agent, if it has something to write. */
    method WriteOne(w: Write)
      requires Calls()
      modifies this`stdout, this`fate, this`framingLatched
      ensures Calls() && stdout == old(stdout) + WriteOf(old(fate), agentInitialized, w)
      ensures old(framingLatched) ==> framingLatched
      ensures Ripened(old(fate), fate) && Elsewhere(old(fate), stdout, |old(stdout)|, [])
    {
      match w
      case Held(t) => if t < |fate| && fate[t].Ready? { Emit(t); }
      case Notice => NotifyListChanged();
      case Own(message) => Respond(message);
    }

    /** The writes of other threads that fall between two steps of a teardown: they need no lock. */
    method WriteAll(ws: seq<Write>)
      requires Calls()
      modifies this`stdout, this`fate, this`framingLatched
      ensures Calls() && old(stdout) <= stdout && (ws == [] ==> stdout == old(stdout))
      ensures old(framingLatched) ==> framingLatched
      ensures Ripened(old(fate), fate) && Elsewhere(old(fate), stdout, |old(stdout)|, [])
    {
      for i := 0 to |ws|
        invariant Calls() && old(stdout) <= stdout && (ws == [] ==> stdout == old(stdout))
        invariant old(framingLatched) ==> framingLatched
        invariant Ripened(old(fate), fate) && Elsewhere(old(fate), stdout, |old(stdout)|, [])
      {
        WriteOne(ws[i]);
      }
    }

    /** Fails the next entry of a teardown, if it is slot `idx`'s: its call is told to have failed. */
    method FailNext(i: nat, idx: nat) returns (told: bool)
      requires Calls() && Requested() && i < |inflight|
      modifies this`inflight, this`fate, this`crossed, this`stdout
      ensures Calls() && Requested() && crossed == old(crossed)
      ensures inflight == if !old(inflight[i]).Free? && old(inflight[i]).slot == idx then old(inflight)[i := Free]
                          else old(inflight)
      ensures told <==> old(inflight[i]).Call? && old(inflight[i]).slot == idx
      ensures stdout == old(stdout) + if told then [Failure(old(inflight[i]))] else []
      ensures Ripened(old(fate), fate)
    {
      hide TableOk, FatesOk, SentOk, HomesOk, SeatsOk, SetupsOk, SlotNamesOk;
      told := inflight[i].Call? && inflight[i].slot == idx;
      if !inflight[i].Free? && inflight[i].slot == idx {
        if inflight[i].Call? { CallInTable(i); }
        FailEntry(i);
      }
    }

    /** One turn of a teardown, behind what other threads write before it. */
    method FailOne(i: nat, idx: nat, ws: seq<Write>, ghost first: seq<Fate>, ghost before: seq<Out>,
        ghost told: seq<nat>, ghost failures: seq<Out>)
      returns (ghost told': seq<nat>)
      requires Calls() && Requested() && i < |inflight|
      requires before <= stdout && Told(stdout, |before|, told, failures)
      requires Elsewhere(first, stdout, |before|, told) && Ripened(first, fate)
      modifies this`inflight, this`fate, this`crossed, this`stdout, this`framingLatched
      ensures Calls() && Requested() && crossed == old(crossed)
      ensures inflight == if !old(inflight[i]).Free? && old(inflight[i]).slot == idx then old(inflight)[i := Free]
                          else old(inflight)
      ensures var was := old(inflight[i]);
              var one := if was.Call? && was.slot == idx then [Failure(was)] else [];
              && before <= stdout && Told(stdout, |before|, told', failures + one)
              && (ws == [] ==> stdout == old(stdout) + one)
      ensures Elsewhere(first, stdout, |before|, told') && Ripened(first, fate)
    {
      hide TableOk, FatesOk, SentOk, HomesOk, Told, Elsewhere, Ripened, Failure;
      told' := told;
      ghost var earlier, ripe := stdout, fate;
      WriteAll(ws);
      StillTold(first, ripe, earlier, stdout, |before|, told, failures);
      RipensOn(first, ripe, fate);
      ghost var between, riper := stdout, fate;
      var one := FailNext(i, idx);
      RipensOn(first, riper, fate);
      if one {
        OneTold(first, between, |before|, told, failures, Failure(old(inflight)[i]));
        told' := told + [|between|];
      } else {
        assert between + [] == between && failures + [] == failures;
      }
    }

    /**
     * Fails every request in flight to slot `idx`, in table order. The lock is held throughout, but other
     * threads write to the agent meanwhile: `meanwhile[i]` just before entry `i` is looked at. `told` are the
     * places of the failures among what was written.
     */
    method FailSlot(idx: nat, meanwhile: seq<seq<Write>>) returns (ghost told: seq<nat>)
      requires Calls() && Requested()
      modifies this`inflight, this`fate, this`crossed, this`stdout, this`framingLatched
      ensures Calls() && Requested() && crossed == old(crossed)
      ensures inflight == Cleared(old(inflight), idx, MAX_INFLIGHT)
      ensures old(stdout) <= stdout && Told(stdout, |old(stdout)|, told, Failures(old(inflight), idx, MAX_INFLIGHT))
      ensures Elsewhere(old(fate), stdout, |old(stdout)|, told)
      ensures meanwhile == [] ==> stdout == old(stdout) + Failures(old(inflight), idx, MAX_INFLIGHT)
      ensures Ripened(old(fate), fate)
    {
      hide Told, Elsewhere, Ripened, Failure;
      told := [];
      var i := 0;
      ghost var first, before := fate, stdout;
      NoneTold(fate, stdout);
      assert stdout == stdout + Failures(inflight, idx, 0) && |inflight| == MAX_INFLIGHT;
      hide Calls, Requested;
      while i < |inflight|
        invariant i <= |inflight| == MAX_INFLIGHT && Calls() && Requested() && crossed == old(crossed)
        invariant inflight == Cleared(old(inflight), idx, i)
        invariant before <= stdout && Told(stdout, |before|, told, Failures(old(inflight), idx, i))
        invariant Elsewhere(first, stdout, |before|, told) && Ripened(first, fate)
        invariant meanwhile == [] ==> stdout == before + Failures(old(inflight), idx, i)
      {
        ClearedStep(old(inflight), idx, i);
        told := FailOne(i, idx, if i < |meanwhile| then meanwhile[i] else [], first, before, told,
                        Failures(old(inflight), idx, i));
        i := i + 1;
      }
    }

    /** The reader of slot `idx` saw the end of its connection: calls fail, the slot is free again. */
    method ReaderGone(idx: nat, meanwhile: seq<seq<Write>>) returns (ghost told: seq<nat>)
      requires Valid() && idx < |reading| && reading[idx]
      modifies this`inflight, this`fate, this`crossed, this`stdout, this`framingLatched, this`backends, this`reading,
               this`seat, this`shellSeat
      ensures Valid() && crossed == old(crossed)
      ensures backends == old(backends)[idx := Vacant] && reading == old(reading)[idx := false]
      ensures inflight == Cleared(old(inflight), idx, MAX_INFLIGHT)
      ensures old(stdout) <= stdout && Told(stdout, |old(stdout)|, told, Failures(old(inflight), idx, MAX_INFLIGHT))
      ensures Elsewhere(old(fate), stdout, |old(stdout)|, told)
      ensures meanwhile == [] ==> stdout == old(stdout) + Failures(old(inflight), idx, MAX_INFLIGHT)
      ensures Ripened(old(fate), fate)
    {
      hide TableOk, FatesOk, SentOk, HomesOk, SeatsOk, SetupsOk, SlotNamesOk;
      told := FailSlot(idx, meanwhile);
      Vacate(idx);
    }

    /** Gives up slot `idx`, which has nothing in flight. */
    method Vacate(idx: nat)
      requires Calls() && Members() && Labelled() && idx < |backends| && backends[idx].Taken?
      requires forall i :: 0 <= i < |inflight| && !inflight[i].Free? ==> inflight[i].slot != idx
      modifies this`backends, this`reading, this`seat, this`shellSeat
      ensures Calls() && Members() && Labelled()
      ensures backends == old(backends)[idx := Vacant] && reading == old(reading)[idx := false]
    {
      hide TableOk, FatesOk, SentOk, HomesOk, SeatsOk, SlotNamesOk;
      SlotChanged(inflight, backends, issued, idx, Vacant);
      HomeKept(backends, homes, idx, Vacant);
      LiveChanged(backends, idx, Vacant);
      SeatLeft(backends, seat, shellSeat, idx);
      SlotNamed(backends, namings, idx, Vacant);
      if backends[idx].isShell {
        shellSeat := None;
      } else {
        SeatsLeaveBusy(setups, seat, backends[idx].pid, idx);
        seat := seat - {backends[idx].pid};
      }
      backends, reading := backends[idx := Vacant], reading[idx := false];
    }

    /** Replaces the cached tools of slot `idx`. */
    method SetTools(idx: nat, tools: seq<Json>)
      requires Calls() && Members() && Labelled() && idx < |backends| && backends[idx].Taken?
      modifies this`backends
      ensures Calls() && Members() && Labelled()
              && backends == old(backends)[idx := old(backends)[idx].(tools := tools)]
    {
      var b := backends[idx].(tools := tools);
      SlotNamed(backends, namings, idx, b);
      SeatKept(backends, seat, shellSeat, idx, b);
      SlotChanged(inflight, backends, issued, idx, b);
      HomeKept(backends, homes, idx, b);
      LiveChanged(backends, idx, b);
      backends := backends[idx := b];
    }

    /** The app of slot `idx` takes on a new app id, and the next prefix for its slug. */
    method Readdress(idx: nat, appId: bytes, slug: bytes) returns (prefix: bytes)
      requires Calls() && Members() && Labelled() && Named() && N.AppIdValid(slug)
      requires idx < |backends| && backends[idx].Taken? && !backends[idx].isShell
      modifies this`backends, this`usedPrefixes, this`namings, this`slugs
      ensures Calls() && Members() && Labelled() && Named()
      ensures prefix == N.Assigned(old(usedPrefixes), slug) && usedPrefixes == N.Registered(old(usedPrefixes), slug)
      ensures backends == old(backends)[idx :=
              old(backends)[idx].(appId := appId, prefix := prefix, naming := |old(namings)|)]
      ensures namings == old(namings) + [Naming(prefix, idx)] && slugs == old(slugs) + [slug]
    {
      hide Calls, Members, Labelled, Named, N.Assigned, N.Registered, N.PrefixText, N.AppIdValid;
      prefix := AssignPrefix(slug, idx);
      Rename(idx, backends[idx].(appId := appId, prefix := prefix, naming := |namings| - 1));
    }

    method AppSlug(appId: bytes) returns (slug: bytes)
      ensures slug == N.Slug(appId) && N.AppIdValid(slug)
    {
      slug := N.Slugify(appId);
      N.SlugIsValid(appId);
    }

    /** A new or changed app id of an app gives it a new prefix. */
    method NoteAppId(idx: nat, appId: Option<bytes>) returns (prefix: Option<bytes>)
      requires Calls() && Members() && Labelled() && Named() && idx < |backends| && backends[idx].Taken?
      modifies this`backends, this`usedPrefixes, this`namings, this`slugs
      ensures Calls() && Members() && Labelled() && Named()
      ensures prefix.Some? <==> !old(backends)[idx].isShell && appId.Some? && appId.value != old(backends)[idx].appId
      ensures prefix.None? ==> backends == old(backends) && usedPrefixes == old(usedPrefixes) && namings == old(namings)
      ensures prefix.Some? ==> IsNext(old(usedPrefixes), N.Slug(Short(appId.value)), prefix.value)
      ensures prefix.Some? ==>
                && namings == old(namings) + [Naming(prefix.value, idx)]
                && backends == old(backends)[idx := old(backends)[idx].(
                     appId := Short(appId.value), prefix := prefix.value, naming := |old(namings)|)]
    {
      if backends[idx].isShell || appId.None? || appId.value == backends[idx].appId {
        return None;
      }
      var slug := AppSlug(Short(appId.value));
      var name := Readdress(idx, Short(appId.value), slug);
      return Some(name);
    }

    /** `name` is what the slug is given next, and the registry is now what that leaves. */
    ghost predicate IsNext(before: seq<bytes>, slug: bytes, name: bytes)
      reads this`usedPrefixes
    {
      name == N.Assigned(before, slug) && usedPrefixes == N.Registered(before, slug)
    }

    /** The second half of a tools refresh: the cache, and a new prefix if the app id changed. */
    method ApplyTools(idx: nat, tools: Option<Json>, appId: Option<bytes>) returns (prefix: Option<bytes>)
      requires Calls() && Members() && Labelled() && Named() && idx < |reading| && reading[idx]
      modifies this`backends, this`usedPrefixes, this`namings, this`slugs
      ensures Calls() && Members() && Labelled() && Named()
      ensures prefix.Some? <==> !old(backends)[idx].isShell && appId.Some? && appId.value != old(backends)[idx].appId
      ensures prefix.None? ==>
                && backends == old(backends)[idx := old(backends)[idx].(tools := Rpc.ToolsOf(tools))]
                && usedPrefixes == old(usedPrefixes) && namings == old(namings)
      ensures |backends| > idx && backends[idx].Taken?
              && backends[idx].tools == if tools.Some? && tools.value.Array? then tools.value.items else []
      ensures prefix.Some? ==> IsNext(old(usedPrefixes), N.Slug(Short(appId.value)), prefix.value)
      ensures prefix.Some? ==>
                && namings == old(namings) + [Naming(prefix.value, idx)]
                && backends == old(backends)[idx := old(backends)[idx].(tools := Rpc.ToolsOf(tools),
                     appId := Short(appId.value), prefix := prefix.value, naming := |old(namings)|)]
    {
      ghost var slots := backends;
      SetTools(idx, Rpc.ToolsOf(tools));
      ghost var b := backends[idx];
      prefix := NoteAppId(idx, appId);
      UpdatedTwice(slots, idx, b, backends[idx]);
    }

    method PrefixInUse(p: bytes) returns (r: bool)
      ensures r <==> p in usedPrefixes
    {
      var i := 0;
      while i < |usedPrefixes|
        invariant i <= |usedPrefixes| && p !in usedPrefixes[..i]
      {
        if usedPrefixes[i] == p {
          return true;
        }
        i := i + 1;
      }
      return false;
    }

    /** The name the next assignment of `desired` gives, and whether it is to be reserved. */
    method PickPrefix(desired: bytes) returns (prefix: bytes, reserve: bool)
      ensures prefix == N.Assigned(usedPrefixes, desired)
      ensures reserve <==> N.FirstFree(usedPrefixes, desired, 1) <= N.LAST_SUFFIX
    {
      var n := 1;
      while n <= N.LAST_SUFFIX
        invariant 1 <= n <= N.LAST_SUFFIX + 1
        invariant N.FirstFree(usedPrefixes, desired, 1) == N.FirstFree(usedPrefixes, desired, n)
      {
        var taken := PrefixInUse(N.Candidate(desired, n));
        if !taken {
          return N.Candidate(desired, n), true;
        }
        n := n + 1;
      }
      return N.Fallback(desired), false;
    }

    /** Exactly when the next name for a slug was given out before, to whatever slot. */
    lemma NextNameRepeats(slug: bytes)
      requires Named()
      ensures N.Assigned(usedPrefixes, slug) in Names(namings) <==> N.Reuses(N.After(slugs), slug)
    {
      N.ReuseIff(slugs, slug);
    }

    /** `assign_prefix`, for slot `idx`. */
    method AssignPrefix(desired: bytes, idx: nat) returns (prefix: bytes)
      requires Labelled() && Named() && N.AppIdValid(desired)
      modifies this`usedPrefixes, this`namings, this`slugs
      ensures Labelled() && Named() && N.PrefixText(prefix) && prefix == N.Assigned(old(usedPrefixes), desired)
      ensures usedPrefixes == N.Registered(old(usedPrefixes), desired)
      ensures N.IsNameFor(old(usedPrefixes), desired, prefix)
      ensures usedPrefixes == if N.NoneFree(old(usedPrefixes), desired) || |old(usedPrefixes)| >= 128
                              then old(usedPrefixes) else old(usedPrefixes) + [prefix]
      ensures namings == old(namings) + [Naming(prefix, idx)] && slugs == old(slugs) + [desired]
    {
      var reserve;
      N.NameForIff(usedPrefixes, desired, N.Assigned(usedPrefixes, desired));
      prefix, reserve := PickPrefix(desired);
      N.AssignedIsPrefixText(usedPrefixes, desired);
      RegistryKept(usedPrefixes, namings, slugs, desired, idx);
      NamingsGrow(backends, namings, Naming(prefix, idx));
      if reserve && |usedPrefixes| < N.MAX_PREFIXES {
        usedPrefixes := usedPrefixes + [prefix];
      }
      namings := namings + [Naming(prefix, idx)];
      slugs := slugs + [desired];
    }

    /** An app slot takes on the name just assigned to it. */
    method Rename(idx: nat, b: Slot)
      requires Calls() && Members() && Labelled() && idx < |backends| && backends[idx].Taken? && !backends[idx].isShell
      requires b.Taken? && SlotNameOk(b, idx, namings)
      requires b.pid == backends[idx].pid && !b.isShell && b.conn == backends[idx].conn
      modifies this`backends
      ensures Calls() && Members() && Labelled() && backends == old(backends)[idx := b]
    {
      SlotNamed(backends, namings, idx, b);
      SeatKept(backends, seat, shellSeat, idx, b);
      SlotChanged(inflight, backends, issued, idx, b);
      HomeKept(backends, homes, idx, b);
      LiveChanged(backends, idx, b);
      backends := backends[idx := b];
    }

    // -------------------------------------------------------------- membership

    /** Is there a live slot, or a setup under way, for this backend? */
    method BackendKnown(isShell: bool, pid: int) returns (known: bool)
      requires Members()
      ensures known <==> if isShell then shellSeat.Some? || shellConnecting else pid in seat || pid in connecting
    {
      SeatsOkIff(backends, seat, shellSeat);
      var i := 0;
      while i < |backends|
        invariant i <= |backends|
        invariant forall k :: 0 <= k < i && backends[k].Taken? ==>
                    if isShell then !backends[k].isShell else backends[k].isShell || backends[k].pid != pid
      {
        var b := backends[i];
        assert SlotSeated(b, i, seat, shellSeat);
        if b.Taken? && (if isShell then b.isShell else !b.isShell && b.pid == pid) {
          return true;
        }
        i := i + 1;
      }
      if isShell {
        return shellConnecting;
      }
      return pid in connecting;
    }

    /** One pid of a poll: a setup is started for it unless it is known or 32 are under way. */
    method Consider(pid: int) returns (started: bool)
      requires Members()
      modifies this`connecting, this`setups
      ensures Members()
      ensures started <==> pid !in seat && pid !in old(connecting) && |old(connecting)| < MAX_BACKENDS
      ensures started ==>
                && pid !in old(setups) && connecting == old(connecting) + [pid]
                && setups == old(setups)[pid := Handshaking]
      ensures !started ==> connecting == old(connecting) && setups == old(setups)
    {
      var known := BackendKnown(false, pid);
      started := !known && |connecting| < MAX_BACKENDS;
      if started {
        SetupStarted(connecting, shellConnecting, setups, shellSetup, seat, shellSeat, pid);
        connecting, setups := connecting + [pid], setups[pid := Handshaking];
      }
    }

    /** Every listed process up to `i` is live, connecting, or there was no room. */
    ghost predicate Considered(pids: seq<int>, self: int, i: nat)
      requires i <= |pids|
      reads this`seat, this`connecting
    {
      forall k :: 0 <= k < i && pids[k] != self ==>
        pids[k] in seat || pids[k] in connecting || |connecting| == MAX_BACKENDS
    }

    /** Process `i` of those a poll lists. */
    method PollOne(pids: seq<int>, i: nat, self: int, started: seq<int>, ghost first: map<int, Phase>)
      returns (started': seq<int>)
      requires Members() && i < |pids| && Considered(pids, self, i) && StartedOnly(first, setups, started)
      modifies this`connecting, this`setups
      ensures Members() && old(connecting) <= connecting && |old(connecting)| <= |connecting| <= MAX_BACKENDS
      ensures || (started' == started && connecting == old(connecting) && setups == old(setups))
              || (pids[i] != self && pids[i] !in seat && pids[i] !in old(setups) && started' == started + [pids[i]]
                  && connecting == old(connecting) + [pids[i]] && setups == old(setups)[pids[i] := Handshaking])
      ensures Considered(pids, self, i + 1) && StartedOnly(first, setups, started')
    {
      var pid := pids[i];
      started' := started;
      if pid != self {
        var unknown := Consider(pid);
        if unknown {
          started' := started + [pid];
        }
      }
    }

    /** The poll's loop: a setup starts for every unknown pid there is room for. */
    method PollApps(pids: seq<int>, self: int) returns (started: seq<int>)
      requires Members()
      modifies this`connecting, this`setups
      ensures Members() && connecting == old(connecting) + started && StartedOnly(old(setups), setups, started)
      ensures forall p :: p in started ==> p in pids && p != self && p !in seat
      ensures Considered(pids, self, |pids|) && |started| <= |pids|
    {
      started := [];
      var i := 0;
      assert Considered(pids, self, 0) && connecting == connecting + [] && StartedOnly(setups, setups, []);
      hide Members, Considered, StartedOnly;
      while i < |pids|
        invariant |started| <= i <= |pids| && Members() && connecting == old(connecting) + started
        invariant forall p :: p in started ==> p in pids && p != self && p !in seat
        invariant StartedOnly(old(setups), setups, started)
        invariant Considered(pids, self, i)
      {
        started := PollOne(pids, i, self, started, old(setups));
        i := i + 1;
      }
    }

    /** The poll's lock-held region: setups start for unknown apps, and for the shell if it is absent. */
    method Poll(pids: seq<int>, self: int) returns (started: seq<int>, tryShell: bool)
      requires Members()
      modifies this`connecting, this`setups, this`shellConnecting, this`shellSetup
      ensures Members()
      ensures connecting == old(connecting) + started && StartedOnly(old(setups), setups, started)
      ensures forall p :: p in started ==> p in pids && p != self && p !in seat
      ensures Considered(pids, self, |pids|) && |started| <= |pids|
      ensures tryShell <==> shellSeat.None? && !old(shellConnecting)
      ensures shellConnecting <==> old(shellConnecting) || tryShell
      ensures if tryShell then old(shellSetup).None? && shellSetup == Some(Handshaking)
              else shellSetup == old(shellSetup)
    {
      started := PollApps(pids, self);
      var known := BackendKnown(true, 0);
      tryShell := !known;
      if tryShell {
        shellConnecting, shellSetup := true, Some(Handshaking);
      }
    }

    predicate InPhase(isShell: bool, pid: int, phase: Phase)
      reads this`setups, this`shellSetup
    {
      if isShell then shellSetup == Some(phase) else pid in setups && setups[pid] == phase
    }

    /** A setup is done with the backend, whether or not it registered it; its entry is still there. */
    method EndHandshake(isShell: bool, pid: int)
      requires Members() && InPhase(isShell, pid, Handshaking)
      modifies this`setups, this`shellSetup
      ensures Members() && InPhase(isShell, pid, Finishing)
      ensures if isShell then shellSeat.None? else pid !in seat
      ensures if isShell then setups == old(setups)
              else shellSetup == old(shellSetup) && setups == old(setups)[pid := Finishing]
    {
      if isShell {
        shellSetup := Some(Finishing);
      } else {
        PhaseEnded(setups, seat, pid);
        setups := setups[pid := Finishing];
      }
    }

    /** `connecting_remove`: the setup's last step. */
    method ConnectingRemove(isShell: bool, pid: int)
      requires Members() && InPhase(isShell, pid, Finishing)
      modifies this`connecting, this`setups, this`shellConnecting, this`shellSetup
      ensures Members()
      ensures if isShell then !shellConnecting && connecting == old(connecting) && setups == old(setups)
              else shellConnecting == old(shellConnecting) && setups == old(setups) - {pid}
                   && |connecting| == |old(connecting)| - 1
                   && forall p :: p in connecting <==> p in old(connecting) && p != pid
    {
      if isShell {
        shellConnecting, shellSetup := false, None;
        return;
      }
      var i := 0;
      while i < |connecting| && connecting[i] != pid
        invariant i <= |connecting| && pid !in connecting[..i]
      {
        i := i + 1;
      }
      SetupEnded(connecting, shellConnecting, setups, shellSetup, seat, shellSeat, i);
      setups := setups - {pid};
      connecting := connecting[i := connecting[|connecting| - 1]][..|connecting| - 1];
    }

    // -------------------------------------------------------------- registering a backend

    /** The slug an app's prefix is made from: its id, else its executable's name, else "app". */
    method DesiredName(appId: bytes, exe: bytes) returns (slug: bytes)
      ensures N.AppIdValid(slug)
      ensures slug == Desired(appId, exe) && NamedAfter(appId, exe, slug)
    {
      hide N.IsSlugOf;
      N.SlugIsValid(appId);
      N.SlugIsValid(exe);
      if appId != [] {
        slug := N.Slugify(appId);
      } else if exe != [] {
        slug := N.Slugify(exe);
      } else {
        slug := N.APP;
      }
    }

    /** A vacant slot goes to the shell, with a new connection and a reader of its own. */
    method SeatShell(k: nat, s: Slot)
      requires Calls() && Members() && Labelled() && k < |backends| && backends[k].Vacant? && s.Taken?
               && s.conn == |homes|
      requires s.isShell && s.prefix == SHELL && shellSeat.None? && shellSetup != Some(Handshaking)
      modifies this`backends, this`reading, this`shellSeat, this`homes
      ensures Calls() && Members() && Labelled() && homes == old(homes) + [k]
      ensures backends == old(backends)[k := s] && !old(reading[k]) && reading == old(reading)[k := true]
    {
      NothingForVacant(k);
      SlotChanged(inflight, backends, issued, k, s);
      HomeTaken(backends, homes, k, s);
      LiveChanged(backends, k, s);
      SeatTaken(backends, seat, shellSeat, k, s);
      SlotNamed(backends, namings, k, s);
      backends, reading, homes := backends[k := s], reading[k := true], homes + [k];
      shellSeat := Some(k);
    }

    /** A vacant slot goes to an app under the name just assigned, likewise. */
    method SeatApp(k: nat, s: Slot)
      requires Calls() && Members() && Labelled() && k < |backends| && backends[k].Vacant? && s.Taken?
               && s.conn == |homes|
      requires !s.isShell && s.pid !in seat && s.pid in setups && setups[s.pid] == Finishing
      requires SlotNameOk(s, k, namings)
      modifies this`backends, this`reading, this`seat, this`homes
      ensures Calls() && Members() && Labelled() && homes == old(homes) + [k]
      ensures backends == old(backends)[k := s] && !old(reading[k]) && reading == old(reading)[k := true]
    {
      NothingForVacant(k);
      SlotChanged(inflight, backends, issued, k, s);
      HomeTaken(backends, homes, k, s);
      LiveChanged(backends, k, s);
      SeatTaken(backends, seat, shellSeat, k, s);
      SlotNamed(backends, namings, k, s);
      SeatsLeaveBusy(setups, seat, s.pid, k);
      backends, reading, homes := backends[k := s], reading[k := true], homes + [k];
      seat := seat[s.pid := k];
    }

    /** Nothing is in flight to a vacant slot. */
    lemma NothingForVacant(k: nat)
      requires Calls() && k < |backends| && backends[k].Vacant?
      ensures forall i :: 0 <= i < |inflight| && !inflight[i].Free? ==> inflight[i].slot != k
    {
      forall i | 0 <= i < |inflight| && !inflight[i].Free? ensures inflight[i].slot != k {
        EntryIsOk(inflight, backends, issued, |inflight|, i);
      }
    }

    /** The slot's reader is started; if that fails the slot is given up. */
    method StartReader(k: nat, threadWorks: bool)
      requires Calls() && Members() && Labelled() && k < |backends| && backends[k].Taken?
      requires forall i :: 0 <= i < |inflight| && !inflight[i].Free? ==> inflight[i].slot != k
      modifies this`backends, this`reading, this`seat, this`shellSeat
      ensures Calls() && Members() && Labelled()
      ensures backends == if threadWorks then old(backends) else old(backends)[k := Vacant]
      ensures reading == if threadWorks then old(reading) else old(reading)[k := false]
    {
      if !threadWorks {
        Vacate(k);
      }
    }

    /** The shell takes slot `k`, if its reader can be started. */
    method ShellArrives(k: nat, pid: int, appId: bytes, tools: Option<Json>, threadWorks: bool)
      requires Calls() && Members() && Labelled() && k < |backends| && backends[k].Vacant?
      requires shellSeat.None? && shellSetup != Some(Handshaking)
      modifies this`backends, this`reading, this`seat, this`shellSeat, this`homes
      ensures Calls() && Members() && Labelled()
      ensures threadWorks ==>
                backends ==
                old(backends)[k := Taken(true, pid, SHELL, Short(appId), Rpc.ToolsOf(tools), |old(homes)|, 0)]
      ensures threadWorks ==> reading == old(reading)[k := true]
      ensures !threadWorks ==> backends == old(backends) && reading == old(reading)
    {
      ghost var slots, live := backends, reading;
      NothingForVacant(k);
      SeatShell(k, Taken(true, pid, SHELL, Short(appId), Rpc.ToolsOf(tools), |homes|, 0));
      StartReader(k, threadWorks);
      assert slots == slots[k := Vacant] && live == live[k := false];
    }

    /** An app takes slot `k` under the name just assigned to it, if its reader can be started. */
    method SeatWithReader(k: nat, s: Slot, threadWorks: bool)
      requires Calls() && Members() && Labelled() && k < |backends| && backends[k].Vacant? && s.Taken?
               && s.conn == |homes|
      requires !s.isShell && s.pid !in seat && s.pid in setups && setups[s.pid] == Finishing
      requires SlotNameOk(s, k, namings)
      modifies this`backends, this`reading, this`seat, this`shellSeat, this`homes
      ensures Calls() && Members() && Labelled()
      ensures threadWorks ==> backends == old(backends)[k := s] && reading == old(reading)[k := true]
      ensures !threadWorks ==> backends == old(backends) && reading == old(reading)
    {
      ghost var slots, live := backends, reading;
      NothingForVacant(k);
      SeatApp(k, s);
      StartReader(k, threadWorks);
      assert slots == slots[k := Vacant] && live == live[k := false];
    }

    /** An app takes slot `k`, if its reader can be started; the name it was given stays reserved either way. */
    method AppArrives(k: nat, pid: int, appId: bytes, slug: bytes, tools: Option<Json>, threadWorks: bool)
      returns (prefix: bytes)
      requires Calls() && Members() && Labelled() && Named() && k < |backends| && backends[k].Vacant?
               && N.AppIdValid(slug)
      requires pid !in seat && pid in setups && setups[pid] == Finishing
      modifies this`backends, this`reading, this`seat, this`shellSeat, this`homes, this`usedPrefixes, this`namings,
               this`slugs
      ensures Calls() && Members() && Labelled() && Named()
      ensures threadWorks ==>
                backends == old(backends)[k :=
                  Taken(false, pid, prefix, Short(appId), Rpc.ToolsOf(tools), |old(homes)|, |old(namings)|)]
      ensures threadWorks ==> reading == old(reading)[k := true]
      ensures !threadWorks ==> backends == old(backends) && reading == old(reading)
      ensures prefix == N.Assigned(old(usedPrefixes), slug) && usedPrefixes == N.Registered(old(usedPrefixes), slug)
      ensures namings == old(namings) + [Naming(prefix, k)]
    {
      hide Calls, Members, Labelled, Named;
      prefix := AssignPrefix(slug, k);
      SeatWithReader(k, Taken(false, pid, prefix, Short(appId), Rpc.ToolsOf(tools), |homes|, |namings| - 1),
        threadWorks);
    }

    /** The backend of a setup takes slot `k`: the shell under its own name, an app under the next for its slug. */
    method Arrives(k: nat, isShell: bool, pid: int, appId: bytes, slug: bytes, tools: Option<Json>, threadWorks: bool)
      returns (prefix: bytes)
      requires Calls() && Members() && Labelled() && Named() && k < |backends| && backends[k].Vacant?
               && N.AppIdValid(slug)
      requires InPhase(isShell, pid, Finishing) && if isShell then shellSeat.None? else pid !in seat
      modifies this`backends, this`reading, this`seat, this`shellSeat, this`homes, this`usedPrefixes, this`namings,
               this`slugs
      ensures Calls() && Members() && Labelled() && Named()
      ensures prefix == if isShell then SHELL else N.Assigned(old(usedPrefixes), slug)
      ensures usedPrefixes == if isShell then old(usedPrefixes) else N.Registered(old(usedPrefixes), slug)
      ensures threadWorks ==> reading == old(reading)[k := true]
      ensures threadWorks ==>
                backends == old(backends)[k :=
                  Taken(isShell, pid, prefix, Short(appId), Rpc.ToolsOf(tools), |old(homes)|,
                                                     if isShell then 0 else |old(namings)|)]
      ensures !threadWorks ==> backends == old(backends) && reading == old(reading)
    {
      if isShell {
        prefix := SHELL;
        ShellArrives(k, pid, appId, tools, threadWorks);
      } else {
        prefix := AppArrives(k, pid, appId, slug, tools, threadWorks);
      }
    }

    /**
     * The end of a setup whose handshake worked: the backend gets the first vacant slot and a name,
     * unless there is none or its reader cannot be started.
     */
    method Register(isShell: bool, pid: int, appId: bytes, exe: bytes, tools: Option<Json>, threadWorks: bool)
      returns (k: nat, slug: bytes, prefix: bytes)
      requires Calls() && Members() && Labelled() && Named() && InPhase(isShell, pid, Handshaking)
      modifies this`backends, this`reading, this`seat, this`shellSeat, this`homes, this`setups, this`shellSetup,
               this`usedPrefixes, this`namings, this`slugs
      ensures Calls() && Members() && Labelled() && Named() && k == VacantFrom(old(backends), 0)
      ensures slug == Desired(Short(appId), exe) && NamedAfter(Short(appId), exe, slug)
      ensures k < MAX_BACKENDS ==> prefix == if isShell then SHELL else N.Assigned(old(usedPrefixes), slug)
      ensures usedPrefixes == if isShell || k == MAX_BACKENDS then old(usedPrefixes)
              else N.Registered(old(usedPrefixes), slug)
      ensures k == MAX_BACKENDS || !threadWorks ==> backends == old(backends) && reading == old(reading)
      ensures k < MAX_BACKENDS && threadWorks ==>
                && reading == old(reading)[k := true]
                && backends == old(backends)[k :=
                   Taken(isShell, pid, prefix, Short(appId), Rpc.ToolsOf(tools), |old(homes)|,
                                                        if isShell then 0 else |old(namings)|)]
      ensures InPhase(isShell, pid, Finishing)
      ensures if isShell then setups == old(setups)
              else shellSetup == old(shellSetup) && setups == old(setups)[pid := Finishing]
    {
      hide TableOk, FatesOk, SentOk, HomesOk, SeatsOk, SetupsOk, SlotNamesOk, NamedAfter;
      k := FindVacant();
      slug := DesiredName(Short(appId), exe);
      EndHandshake(isShell, pid);
      if k < |backends| {
        prefix := Arrives(k, isShell, pid, appId, slug, tools, threadWorks);
      } else {
        prefix := [];
      }
    }
  }

  /** The slug of the app id, whatever the executable is called; without an id that of its name; else "app". */
  ghost predicate NamedAfter(appId: bytes, exe: bytes, slug: bytes) {
    if appId != [] then N.IsSlugOf(appId, slug)
    else if exe != [] then N.IsSlugOf(exe, slug)
    else slug == Rpc.Text("app")
  }

  /** What an app's prefix is made from: its id, else its executable's name, else "app". */
  function Desired(appId: bytes, exe: bytes): bytes {
    if appId != [] then N.Slug(appId) else if exe != [] then N.Slug(exe) else N.APP
  }

  /** The names listed for the first `n` tools of a slot. */
  function ListedNames(slot: Slot, n: nat, diagnostics: bool): seq<bytes>
    requires slot.Taken? && n <= |slot.tools|
  {
    if n == 0 then []
    else
      var tool := slot.tools[n - 1];
      ListedNames(slot, n - 1, diagnostics)
      + if Rpc.Exposed(tool, diagnostics) && Rpc.ToolName(tool).Some?
        then [N.ListedName(slot.prefix, Rpc.ToolName(tool).value)] else []
  }

  /** The names listed for the first `n` slots. */
  function MergedNames(slots: seq<Slot>, n: nat, diagnostics: bool): seq<bytes>
    requires n <= |slots|
  {
    if n == 0 then []
    else
      MergedNames(slots, n - 1, diagnostics)
      + if slots[n - 1].Taken? then ListedNames(slots[n - 1], |slots[n - 1].tools|, diagnostics) else []
  }

  lemma AppendNames(a: seq<bytes>, b: seq<bytes>, c: seq<bytes>)
    ensures (a + b) + c == a + (b + c)
  {
  }

  lemma UpdatedTwice(slots: seq<Slot>, k: nat, a: Slot, b: Slot)
    requires k < |slots|
    ensures slots[k := a][k := b] == slots[k := b]
  {
  }

  /** Slot `slot` lists `name` for one of its first `n` tools: an exposed one with that listed name. */
  ghost predicate Lists(slot: Slot, n: nat, name: bytes, diagnostics: bool)
    requires slot.Taken? && n <= |slot.tools|
  {
    exists i :: 0 <= i < n && Rpc.Exposed(slot.tools[i], diagnostics) && Rpc.ToolName(slot.tools[i]).Some?
                && N.ListedName(slot.prefix, Rpc.ToolName(slot.tools[i]).value) == name
  }

  lemma ListsNext(slot: Slot, n: nat, name: bytes, diagnostics: bool)
    requires slot.Taken? && 0 < n <= |slot.tools|
    ensures Lists(slot, n, name, diagnostics) <==>
            || Lists(slot, n - 1, name, diagnostics)
            || (Rpc.Exposed(slot.tools[n - 1], diagnostics) && Rpc.ToolName(slot.tools[n - 1]).Some?
                && N.ListedName(slot.prefix, Rpc.ToolName(slot.tools[n - 1]).value) == name)
  {
  }

  lemma ListedNext(slot: Slot, n: nat, name: bytes, diagnostics: bool)
    requires slot.Taken? && 0 < n <= |slot.tools|
    ensures name in ListedNames(slot, n, diagnostics) <==>
            || name in ListedNames(slot, n - 1, diagnostics)
            || (Rpc.Exposed(slot.tools[n - 1], diagnostics) && Rpc.ToolName(slot.tools[n - 1]).Some?
                && N.ListedName(slot.prefix, Rpc.ToolName(slot.tools[n - 1]).value) == name)
  {
    hide N.ListedName, Rpc.Exposed, Rpc.ToolName;
  }

  lemma {:induction false} ListedIff(slot: Slot, n: nat, name: bytes, diagnostics: bool)
    requires slot.Taken? && n <= |slot.tools|
    ensures name in ListedNames(slot, n, diagnostics) <==> Lists(slot, n, name, diagnostics)
  {
    if n > 0 {
      hide Lists, ListedNames, N.ListedName, Rpc.Exposed, Rpc.ToolName;
      ListedIff(slot, n - 1, name, diagnostics);
      ListedNext(slot, n, name, diagnostics);
      ListsNext(slot, n, name, diagnostics);
    }
  }

  /** The merged list has exactly the names of the exposed, named tools of the live slots. */
  lemma {:induction false} MergedIff(slots: seq<Slot>, n: nat, name: bytes, diagnostics: bool)
    requires n <= |slots|
    ensures name in MergedNames(slots, n, diagnostics) <==>
            exists k :: 0 <= k < n && slots[k].Taken? && Lists(slots[k], |slots[k].tools|, name, diagnostics)
  {
    if n > 0 {
      MergedIff(slots, n - 1, name, diagnostics);
      if slots[n - 1].Taken? { ListedIff(slots[n - 1], |slots[n - 1].tools|, name, diagnostics); }
    }
  }

  function ConnOf(s: Slot): Option<nat> {
    if s.Taken? then Some(s.conn) else None
  }

  /** An app id as the slot keeps it: at most 32 bytes. */
  function Short(appId: bytes): bytes {
    if |appId| > 32 then appId[..32] else appId
  }

  // ---------------------------------------------------------------- what a dying backend leaves

  function Failure(e: Entry): Out
    requires e.Call?
  {
    Answer(e.ticket, Rpc.ErrorReply(e.origId, REFUSED, BackendExited()))
  }

  /** The setups are those there were, and a handshake each for the started. */
  ghost predicate StartedOnly(before: map<int, Phase>, after: map<int, Phase>, started: seq<int>) {
    && (forall p :: p in after <==> p in before || p in started)
    && (forall p :: p in started ==> p !in before && after[p] == Handshaking)
    && (forall p :: p in before ==> after[p] == before[p])
  }

  /** What a thread writes: an answer that is ready, a notification once the agent has initialized, a reply. */
  function WriteOf(fate: seq<Fate>, initialized: bool, w: Write): seq<Out> {
    match w
    case Held(t) => if t < |fate| && fate[t].Ready? then [Answer(t, fate[t].message)] else []
    case Notice => if initialized then [ListChanged] else []
    case Own(message) => [Reply(message)]
  }

  /** Calls that were not waiting in the table stay as they are, but for answers that get written. */
  ghost predicate Ripened(before: seq<Fate>, after: seq<Fate>) {
    && |after| == |before|
    && (forall t :: 0 <= t < |before| && !before[t].Waiting? ==>
          after[t] == before[t] || (before[t].Ready? && after[t].Written?))
    && (forall t :: 0 <= t < |before| && after[t].Ready? ==> before[t].Ready?)
  }

  /** What was written from `from` on, but for the places in `told`, are other threads' writes. */
  ghost predicate Elsewhere(before: seq<Fate>, stdout: seq<Out>, from: nat, told: seq<nat>) {
    forall p :: from <= p < |stdout| && p !in told && stdout[p].Answer? ==>
      stdout[p].ticket < |before| && before[stdout[p].ticket].Ready?
  }

  /** The failures were written in this order, at the places `told`, all behind `from`. */
  ghost predicate Told(stdout: seq<Out>, from: nat, told: seq<nat>, failures: seq<Out>) {
    && |told| == |failures|
    && (forall i :: 0 <= i < |told| ==> from <= told[i] < |stdout| && stdout[told[i]] == failures[i])
    && (forall i, j :: 0 <= i < j < |told| ==> told[i] < told[j])
  }

  lemma NoneTold(fate: seq<Fate>, stdout: seq<Out>)
    ensures Told(stdout, |stdout|, [], []) && Elsewhere(fate, stdout, |stdout|, []) && Ripened(fate, fate)
  {
  }

  lemma RipensOn(a: seq<Fate>, b: seq<Fate>, c: seq<Fate>)
    requires Ripened(a, b) && Ripened(b, c)
    ensures Ripened(a, c)
  {
  }

  /** Other threads write. */
  lemma StillTold(
      first: seq<Fate>, ripe: seq<Fate>, before: seq<Out>, after: seq<Out>, from: nat, told: seq<nat>,
      failures: seq<Out>)
    requires from <= |before| && before <= after && Told(before, from, told, failures)
    requires Elsewhere(first, before, from, told) && Elsewhere(ripe, after, |before|, []) && Ripened(first, ripe)
    ensures Told(after, from, told, failures) && Elsewhere(first, after, from, told)
  {
    forall p | from <= p < |after| && p !in told && after[p].Answer?
      ensures after[p].ticket < |first| && first[after[p].ticket].Ready?
    {
      if p < |before| {
        assert before[p] == after[p];
      } else {
        assert p !in [] && ripe[after[p].ticket].Ready?;
      }
    }
  }

  /** One more failure is written. */
  lemma OneTold(first: seq<Fate>, before: seq<Out>, from: nat, told: seq<nat>, failures: seq<Out>, f: Out)
    requires from <= |before| && Told(before, from, told, failures) && Elsewhere(first, before, from, told)
    ensures Told(before + [f], from, told + [|before|], failures + [f])
    ensures Elsewhere(first, before + [f], from, told + [|before|])
  {
    var after, told' := before + [f], told + [|before|];
    assert told'[|told|] == |before|;
    forall p | from <= p < |after| && p !in told' && after[p].Answer?
      ensures after[p].ticket < |first| && first[after[p].ticket].Ready?
    {
      assert p < |before|;
    }
  }

  /** The table with slot `idx`'s entries among the first `n` freed. */
  function Cleared(table: seq<Entry>, idx: nat, n: nat): (r: seq<Entry>)
    requires n <= |table|
    ensures |r| == |table|
  {
    seq(|table|, i requires 0 <= i < |table| =>
      if i < n && !table[i].Free? && table[i].slot == idx then Free else table[i])
  }

  /** The failures told for slot `idx`'s calls among the first `n` entries. */
  function Failures(table: seq<Entry>, idx: nat, n: nat): seq<Out>
    requires n <= |table|
  {
    if n == 0 then []
    else Failures(table, idx, n - 1)
         + if table[n - 1].Call? && table[n - 1].slot == idx then [Failure(table[n - 1])] else []
  }

  lemma ClearedStep(table: seq<Entry>, idx: nat, n: nat)
    requires n < |table|
    ensures Cleared(table, idx, n)[n] == table[n]
    ensures Cleared(table, idx, n + 1) ==
            if !table[n].Free? && table[n].slot == idx then Cleared(table, idx, n)[n := Free]
              else Cleared(table, idx, n)
  {
  }
}
