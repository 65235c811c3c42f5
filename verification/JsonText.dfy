/** JSON trees and the text the printer gives them, unformatted or formatted. */
module JsonText {
  import opened Bytes
  import Decimal

  /**
   * A tree as its users see it. `Number` is a number that is a 32-bit integer, however it is written;
   * `Real` stands for any other number and is kept as the text it was read from.
   */
  datatype Json =
    | Null
    | False
    | True
    | Number(n: int)
    | Real(lexeme: bytes)
    | String(s: bytes)
    | Array(items: seq<Json>)
    | Object(members: seq<Member>)

  datatype Member = Member(key: bytes, value: Json)

  const NULL_TEXT: bytes := [0x6E, 0x75, 0x6C, 0x6C]
  const FALSE_TEXT: bytes := [0x66, 0x61, 0x6C, 0x73, 0x65]
  const TRUE_TEXT: bytes := [0x74, 0x72, 0x75, 0x65]
  const INT_MAX: int := 0x7FFF_FFFF
  const INT_MIN: int := -0x8000_0000

  /** The trees of the round trip: 32-bit integer numbers and strings without NUL. */
  predicate Printable(v: Json) {
    match v
    case Number(n) => INT_MIN <= n <= INT_MAX
    case Real(_) => false
    case String(s) => NUL !in s
    case Array(items) => forall i :: 0 <= i < |items| ==> Printable(items[i])
    case Object(ms) => forall i :: 0 <= i < |ms| ==> NUL !in ms[i].key && Printable(ms[i].value)
    case _ => true
  }

  /** No point of `v` lies inside more than `n` containers. */
  predicate NestsWithin(v: Json, n: nat) {
    match v
    case Array(items) => n > 0 && forall i :: 0 <= i < |items| ==> NestsWithin(items[i], n - 1)
    case Object(ms) => n > 0 && forall i :: 0 <= i < |ms| ==> NestsWithin(ms[i].value, n - 1)
    case _ => true
  }

  // ---------------------------------------------------------------- strings

  function LowerHex(n: nat): byte
    requires n < 16
  {
    if n < 10 then 0x30 + n else 0x61 + n - 10
  }

  /** The letter of a two-byte escape, if `b` has one when printed. */
  function ShortEscape(b: byte): Option<byte> {
    if b == BACKSLASH then Some(BACKSLASH)
    else if b == QUOTE then Some(QUOTE)
    else if b == 8 then Some(0x62)
    else if b == 12 then Some(0x66)
    else if b == LF then Some(0x6E)
    else if b == CR then Some(0x72)
    else if b == TAB then Some(0x74)
    else None
  }

  function EscapeByte(b: byte): (r: bytes)
    ensures 1 <= |r| <= 6
  {
    if b > 31 && b != QUOTE && b != BACKSLASH then [b]
    else if ShortEscape(b).Some? then [BACKSLASH, ShortEscape(b).value]
    else [BACKSLASH, 0x75, 0x30, 0x30, LowerHex(b / 16), LowerHex(b % 16)]
  }

  function Escape(s: bytes): bytes {
    if |s| == 0 then [] else EscapeByte(s[0]) + Escape(s[1..])
  }

  function Quoted(s: bytes): bytes {
    [QUOTE] + Escape(s) + [QUOTE]
  }

  // ---------------------------------------------------------------- values

  function Tabs(n: nat): (r: bytes)
    ensures |r| == n && forall i :: 0 <= i < n ==> r[i] == TAB
  {
    if n == 0 then [] else [TAB] + Tabs(n - 1)
  }

  /** Text of `v`; `depth` counts the containers around it. */
  function Print(v: Json, format: bool, depth: nat): bytes
  {
    match v
    case Null => NULL_TEXT
    case False => FALSE_TEXT
    case True => TRUE_TEXT
    case Number(n) => Decimal.Signed(n)
    case Real(lexeme) => lexeme
    case String(s) => Quoted(s)
    case Array(items) =>
      var texts := seq(|items|, i requires 0 <= i < |items| => Print(items[i], format, depth + 1));
      [LBRACKET] + Joined(texts, 0, ItemSeparator(format), []) + [RBRACKET]
    case Object(ms) =>
      var texts := seq(|ms|, i requires 0 <= i < |ms| =>
        KeyText(ms[i].key, format, depth + 1) + Print(ms[i].value, format, depth + 1));
      [LBRACE] + NewLine(format) + Joined(texts, 0, MemberSeparator(format), NewLine(format))
      + Indent(format, depth) + [RBRACE]
  }

  function NewLine(format: bool): bytes {
    if format then [LF] else []
  }

  function Indent(format: bool, depth: nat): bytes {
    if format then Tabs(depth) else []
  }

  /** The texts from index `i` on, each followed by `between` or, the last one, by `after`. */
  function Joined(texts: seq<bytes>, i: nat, between: bytes, after: bytes): bytes
    decreases |texts| - i
  {
    if i >= |texts| then []
    else texts[i] + (if i + 1 < |texts| then between else after) + Joined(texts, i + 1, between, after)
  }

  function ItemSeparator(format: bool): bytes {
    if format then [COMMA, SPACE] else [COMMA]
  }

  function MemberSeparator(format: bool): bytes {
    [COMMA] + NewLine(format)
  }

  function ColonText(format: bool): bytes {
    if format then [COLON, TAB] else [COLON]
  }

  /** Indentation, key and colon. */
  function KeyText(key: bytes, format: bool, depth: nat): bytes {
    Indent(format, depth) + Quoted(key) + ColonText(format)
  }

  // ---------------------------------------------------------------- the texts a container is printed from

  function ItemTexts(items: seq<Json>, format: bool, depth: nat): (r: seq<bytes>)
    ensures |r| == |items|
  {
    seq(|items|, i requires 0 <= i < |items| => Print(items[i], format, depth))
  }

  function MemberText(m: Member, format: bool, depth: nat): bytes {
    KeyText(m.key, format, depth) + Print(m.value, format, depth)
  }

  function MemberTexts(ms: seq<Member>, format: bool, depth: nat): (r: seq<bytes>)
    ensures |r| == |ms|
  {
    seq(|ms|, i requires 0 <= i < |ms| => MemberText(ms[i], format, depth))
  }

  lemma PrintOfArray(items: seq<Json>, format: bool, depth: nat)
    ensures Print(Array(items), format, depth) ==
            [LBRACKET] + Joined(ItemTexts(items, format, depth + 1), 0, ItemSeparator(format), []) + [RBRACKET]
  {
    var texts := seq(|items|, i requires 0 <= i < |items| => Print(items[i], format, depth + 1));
    assert texts == ItemTexts(items, format, depth + 1);
  }

  lemma PrintOfObject(ms: seq<Member>, format: bool, depth: nat)
    ensures Print(Object(ms), format, depth) ==
            [LBRACE] + NewLine(format)
            + Joined(MemberTexts(ms, format, depth + 1), 0, MemberSeparator(format), NewLine(format))
            + Indent(format, depth) + [RBRACE]
  {
    var texts := seq(|ms|, i requires 0 <= i < |ms| =>
      KeyText(ms[i].key, format, depth + 1) + Print(ms[i].value, format, depth + 1));
    assert forall i :: 0 <= i < |ms| ==> texts[i] == MemberText(ms[i], format, depth + 1);
    assert texts == MemberTexts(ms, format, depth + 1);
  }
}
