/** JSON-RPC messages: reading and replacing the id, and error replies. */
module Rpc {
  import opened Bytes
  import opened JsonText

  /** "id" */
  const ID: bytes := [0x69, 0x64]
  /** "jsonrpc" */
  const JSONRPC: bytes := [0x6A, 0x73, 0x6F, 0x6E, 0x72, 0x70, 0x63]
  /** "2.0" */
  const VERSION: bytes := [0x32, DOT, 0x30]
  /** "error" */
  const ERROR: bytes := [0x65, 0x72, 0x72, 0x6F, 0x72]
  /** "code" */
  const CODE: bytes := [0x63, 0x6F, 0x64, 0x65]
  /** "message" */
  const MESSAGE: bytes := [0x6D, 0x65, 0x73, 0x73, 0x61, 0x67, 0x65]

  /** The first member called `key`, as a case-sensitive lookup finds it. */
  function Lookup(members: seq<Member>, key: bytes): Option<Json> {
    if members == [] then None
    else if members[0].key == key then Some(members[0].value)
    else Lookup(members[1..], key)
  }

  function IdOf(message: Json): Option<Json> {
    if message.Object? then Lookup(message.members, ID) else None
  }

  /** The first member called `key` gets `value`. */
  function Replaced(members: seq<Member>, key: bytes, value: Json): seq<Member> {
    if members == [] then []
    else if members[0].key == key then [Member(key, value)] + members[1..]
    else [members[0]] + Replaced(members[1..], key, value)
  }

  function WithId(message: Json, id: Json): Json {
    if message.Object? then Object(Replaced(message.members, ID, id)) else message
  }

  lemma {:induction false} ReplacedIsFound(members: seq<Member>, key: bytes, value: Json)
    requires Lookup(members, key).Some?
    ensures Lookup(Replaced(members, key, value), key) == Some(value)
  {
    if members[0].key != key { ReplacedIsFound(members[1..], key, value); }
  }

  lemma {:induction false} ReplacedKeepsOthers(members: seq<Member>, key: bytes, value: Json, other: bytes)
    requires other != key
    ensures Lookup(Replaced(members, key, value), other) == Lookup(members, other)
  {
    if members != [] {
      if members[0].key != key { ReplacedKeepsOthers(members[1..], key, value, other); }
    }
  }

  /** A relayed response carries the given id and is otherwise the backend's. */
  lemma RelayedMessage(message: Json, id: Json, other: bytes)
    requires IdOf(message).Some?
    ensures IdOf(WithId(message, id)) == Some(id)
    ensures other != ID ==> Lookup(WithId(message, id).members, other) == Lookup(message.members, other)
  {
    ReplacedIsFound(message.members, ID, id);
    if other != ID { ReplacedKeepsOthers(message.members, ID, id, other); }
  }

  /**
   * A response under `localId`: its id is that number. One that is no 32-bit integer is converted by the C
   * code, to what is not said here: it may be taken for any.
   */
  predicate RespondsTo(message: Json, localId: nat) {
    IdOf(message).Some? && match IdOf(message).value
                           case Number(n) => n == localId
                           case Real(_) => true
                           case _ => false
  }

  /** "method" */
  const METHOD: bytes := [0x6D, 0x65, 0x74, 0x68, 0x6F, 0x64]
  /** "params" */
  const PARAMS: bytes := [0x70, 0x61, 0x72, 0x61, 0x6D, 0x73]
  /** "name" */
  const NAME: bytes := [0x6E, 0x61, 0x6D, 0x65]
  /** "arguments" */
  const ARGUMENTS: bytes := [0x61, 0x72, 0x67, 0x75, 0x6D, 0x65, 0x6E, 0x74, 0x73]
  /** "tools/call" */
  const TOOLS_CALL: bytes := [0x74, 0x6F, 0x6F, 0x6C, 0x73, SLASH, 0x63, 0x61, 0x6C, 0x6C]
  /** "tools/list" */
  const TOOLS_LIST: bytes := [0x74, 0x6F, 0x6F, 0x6C, 0x73, SLASH, 0x6C, 0x69, 0x73, 0x74]

  /** The request a backend gets for a call of its tool; arguments are passed on only if there are any. */
  function CallRequest(localId: nat, tool: bytes, arguments: Option<Json>): Json {
    var params := [Member(NAME, String(tool))] + if arguments.Some? then [Member(ARGUMENTS, arguments.value)] else [];
    Object([Member(JSONRPC, String(VERSION)), Member(ID, Number(localId)), Member(METHOD, String(TOOLS_CALL)),
            Member(PARAMS, Object(params))])
  }

  function ListRequest(localId: nat): Json {
    Object([Member(JSONRPC, String(VERSION)), Member(ID, Number(localId)), Member(METHOD, String(TOOLS_LIST))])
  }

  /** A request for the tools says so, under its id. */
  lemma ListRequestReads(localId: nat)
    ensures var r := ListRequest(localId);
            && HasVersion(r) && IdOf(r) == Some(Number(localId)) && ID == Text("id")
            && Lookup(r.members, METHOD) == Some(String(Text("tools/list"))) && Lookup(r.members, PARAMS).None?
  {
    var ms := ListRequest(localId).members;
    assert Text("tools/list") == TOOLS_LIST && ID == Text("id");
    VersionFirst(ms);
    LookupAt(ms, ID, 1);
    LookupAt(ms, METHOD, 2);
    NotAmong(ms, PARAMS);
  }

  lemma {:induction false} NotAmong(members: seq<Member>, key: bytes)
    requires forall k :: 0 <= k < |members| ==> members[k].key != key
    ensures Lookup(members, key).None?
  {
    if members != [] { NotAmong(members[1..], key); }
  }

  /** The message says it is of version 2.0 of JSON-RPC. */
  predicate HasVersion(message: Json) {
    message.Object? && Lookup(message.members, Text("jsonrpc")) == Some(String(Text("2.0")))
  }

  lemma VersionFirst(members: seq<Member>)
    requires members != [] && members[0] == Member(JSONRPC, String(VERSION))
    ensures HasVersion(Object(members))
  {
    assert Text("jsonrpc") == JSONRPC && Text("2.0") == VERSION;
  }

  lemma {:induction false} LookupAt(members: seq<Member>, key: bytes, k: nat)
    requires k < |members| && members[k].key == key && forall j :: 0 <= j < k ==> members[j].key != key
    ensures Lookup(members, key) == Some(members[k].value)
  {
    if k > 0 { LookupAt(members[1..], key, k - 1); }
  }

  /** The backend finds its own tool's name, the agent's arguments, and the local id to answer under. */
  lemma RequestReads(localId: nat, tool: bytes, arguments: Option<Json>)
    ensures var r := CallRequest(localId, tool, arguments);
            && HasVersion(r) && TOOLS_CALL == Text("tools/call") && METHOD == Text("method")
            && PARAMS == Text("params") && NAME == Text("name") && ARGUMENTS == Text("arguments")
            && ID == Text("id") && IdOf(r) == Some(Number(localId))
            && Lookup(r.members, METHOD) == Some(String(TOOLS_CALL))
            && Lookup(r.members, PARAMS).Some? && Lookup(r.members, PARAMS).value.Object?
            && Lookup(Lookup(r.members, PARAMS).value.members, NAME) == Some(String(tool))
            && Lookup(Lookup(r.members, PARAMS).value.members, ARGUMENTS) == arguments
  {
    var ms := CallRequest(localId, tool, arguments).members;
    assert Text("tools/call") == TOOLS_CALL && METHOD == Text("method") && PARAMS == Text("params");
    assert NAME == Text("name") && ARGUMENTS == Text("arguments") && ID == Text("id");
    VersionFirst(ms);
    LookupAt(ms, ID, 1);
    LookupAt(ms, METHOD, 2);
    LookupAt(ms, PARAMS, 3);
    var ps := ms[3].value.members;
    LookupAt(ps, NAME, 0);
    if arguments.Some? {
      LookupAt(ps, ARGUMENTS, 1);
    } else {
      assert ps[1..] == [];
    }
  }

  /** An error reply to the request `id`. */
  function ErrorReply(id: Json, code: int, text: bytes): Json {
    Object([Member(JSONRPC, String(VERSION)), Member(ID, id),
            Member(ERROR, Object([Member(CODE, Number(code)), Member(MESSAGE, String(text))]))])
  }

  /** The agent finds the id it answers, and the code and text of the error. */
  lemma ErrorReads(id: Json, code: int, text: bytes)
    ensures var r := ErrorReply(id, code, text);
            && HasVersion(r) && ERROR == Text("error") && CODE == Text("code") && MESSAGE == Text("message")
            && ID == Text("id") && IdOf(r) == Some(id)
            && Lookup(r.members, ERROR).Some? && Lookup(r.members, ERROR).value.Object?
            && Lookup(Lookup(r.members, ERROR).value.members, CODE) == Some(Number(code))
            && Lookup(Lookup(r.members, ERROR).value.members, MESSAGE) == Some(String(text))
  {
    var ms := ErrorReply(id, code, text).members;
    assert ERROR == Text("error") && CODE == Text("code") && MESSAGE == Text("message") && ID == Text("id");
    VersionFirst(ms);
    LookupAt(ms, ID, 1);
    LookupAt(ms, ERROR, 2);
    LookupAt(ms[2].value.members, CODE, 0);
    LookupAt(ms[2].value.members, MESSAGE, 1);
  }

  // ---------------------------------------------------------------- tool entries

  /** "_meta" */
  const META: bytes := [UNDERSCORE, 0x6D, 0x65, 0x74, 0x61]

  /** ASCII text as bytes; no other text is meant. */
  function Text(s: string): (r: bytes)
    ensures |r| == |s|
  {
    seq(|s|, i requires 0 <= i < |s| => if s[i] < 128 as char then s[i] as int else 0)
  }

  function MemberOf(item: Json, key: bytes): Option<Json> {
    if item.Object? then Lookup(item.members, key) else None
  }

  function StringOf(value: Option<Json>): Option<bytes> {
    if value.Some? && value.value.String? then Some(value.value.s) else None
  }

  function ToolName(tool: Json): Option<bytes> {
    StringOf(MemberOf(tool, NAME))
  }

  /** A tool's group: the tag in its metadata, else "capture" for one old tool and "diagnostic" for the others. */
  function ToolGroup(tool: Json): bytes {
    var meta := MemberOf(tool, META);
    var group := if meta.Some? then StringOf(MemberOf(meta.value, Text("displayxr/group"))) else None;
    if group.Some? then group.value
    else if ToolName(tool) == Some(Text("capture_frame")) then Text("capture")
    else Text("diagnostic")
  }

  predicate Exposed(tool: Json, diagnostics: bool) {
    diagnostics || ToolGroup(tool) != Text("diagnostic")
  }

  // ---------------------------------------------------------------- the same in terms of an object's members

  /** `value` is that of the first member of `item` called `key`. */
  ghost predicate HasMember(item: Json, key: bytes, value: Json) {
    item.Object? && exists k :: IsFirst(item.members, key, value, k)
  }

  ghost predicate IsFirst(members: seq<Member>, key: bytes, value: Json, k: int) {
    0 <= k < |members| && members[k] == Member(key, value) && forall j :: 0 <= j < k ==> members[j].key != key
  }

  lemma {:induction false} LookupIff(members: seq<Member>, key: bytes, value: Json)
    ensures Lookup(members, key) == Some(value) <==> HasMember(Object(members), key, value)
  {
    if members != [] {
      hide HasMember;
      LookupIff(members[1..], key, value);
      if members[0].key == key {
        FirstHas(members, key, value);
      } else {
        OthersHave(members, key, value);
      }
    }
  }

  lemma FirstHas(members: seq<Member>, key: bytes, value: Json)
    requires members != [] && members[0].key == key
    ensures HasMember(Object(members), key, value) <==> members[0].value == value
  {
    assert IsFirst(members, key, members[0].value, 0);
  }

  lemma OthersHave(members: seq<Member>, key: bytes, value: Json)
    requires members != [] && members[0].key != key
    ensures HasMember(Object(members), key, value) <==> HasMember(Object(members[1..]), key, value)
  {
    assert !IsFirst(members, key, value, 0);
    forall k ensures IsFirst(members, key, value, k + 1) <==> IsFirst(members[1..], key, value, k) {
      OneFurther(members, key, value, k);
    }
    hide IsFirst;
    if k :| IsFirst(members, key, value, k) { assert IsFirst(members[1..], key, value, k - 1); }
  }

  lemma OneFurther(members: seq<Member>, key: bytes, value: Json, k: int)
    requires members != [] && members[0].key != key
    ensures IsFirst(members, key, value, k + 1) <==> IsFirst(members[1..], key, value, k)
  {
    var rest := members[1..];
    if IsFirst(rest, key, value, k) {
      forall j | 0 <= j < k + 1 ensures members[j].key != key { if j > 0 { assert members[j] == rest[j - 1]; } }
    }
    if IsFirst(members, key, value, k + 1) {
      assert k != -1;
      forall j | 0 <= j < k ensures rest[j].key != key { assert rest[j] == members[j + 1]; }
    }
  }

  lemma MemberOfIff(item: Json, key: bytes, value: Json)
    ensures MemberOf(item, key) == Some(value) <==> HasMember(item, key, value)
  {
    if item.Object? { LookupIff(item.members, key, value); }
  }

  /** The tool has this name. */
  ghost predicate HasName(tool: Json, name: bytes) {
    HasMember(tool, Text("name"), String(name))
  }

  /** The tool's metadata put it into this group. */
  ghost predicate HasGroup(tool: Json, group: bytes) {
    exists meta :: HasMember(tool, Text("_meta"), meta) && HasMember(meta, Text("displayxr/group"), String(group))
  }

  /** Shown to the agent: all if diagnostics are, else those of another group, and one by its name without a group. */
  ghost predicate Shown(tool: Json, diagnostics: bool) {
    || diagnostics
    || (exists group :: HasGroup(tool, group) && group != Text("diagnostic"))
    || ((forall group :: !HasGroup(tool, group)) && HasName(tool, Text("capture_frame")))
  }

  lemma NameIff(tool: Json, name: bytes)
    ensures ToolName(tool) == Some(name) <==> HasName(tool, name)
  {
    assert Text("name") == NAME;
    MemberOfIff(tool, NAME, String(name));
  }

  /** The tag in the metadata, if there is one that is a string. */
  function TagOf(tool: Json): Option<bytes> {
    var meta := MemberOf(tool, META);
    if meta.Some? then StringOf(MemberOf(meta.value, Text("displayxr/group"))) else None
  }

  lemma TagIff(tool: Json, group: bytes)
    ensures TagOf(tool) == Some(group) <==> HasGroup(tool, group)
  {
    assert Text("_meta") == META;
    var meta := MemberOf(tool, META);
    forall m ensures HasMember(tool, Text("_meta"), m) <==> meta == Some(m) { MemberOfIff(tool, META, m); }
    if meta.Some? { MemberOfIff(meta.value, Text("displayxr/group"), String(group)); }
  }

  lemma ExposedIff(tool: Json, diagnostics: bool)
    ensures Exposed(tool, diagnostics) <==> Shown(tool, diagnostics)
  {
    hide HasGroup, HasName, TagOf;
    forall group ensures TagOf(tool) == Some(group) <==> HasGroup(tool, group) { TagIff(tool, group); }
    NameIff(tool, Text("capture_frame"));
    GroupIs(tool);
    assert |Text("capture")| == 7 && |Text("diagnostic")| == 10;
    if TagOf(tool).Some? { assert HasGroup(tool, TagOf(tool).value); }
  }

  lemma GroupIs(tool: Json)
    ensures ToolGroup(tool) == if TagOf(tool).Some? then TagOf(tool).value
                               else if ToolName(tool) == Some(Text("capture_frame")) then Text("capture")
                               else Text("diagnostic")
  {
  }

  /** The tools of a listing: what is not an array has none. */
  function ToolsOf(value: Option<Json>): seq<Json> {
    if value.Some? && value.value.Array? then value.value.items else []
  }
}
