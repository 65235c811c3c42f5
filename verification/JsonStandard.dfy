/** The JSON texts of RFC 8259, and that the printer writes one of them, for the tree it is given. */
module JsonStandard {
  import opened Bytes
  import Decimal
  import opened JsonGrammar
  import opened JsonSyntax
  import opened JsonText
  import R = JsonRoundTrip
  import Utf

  /** What the RFC allows: no control characters, no bare quotes, only hexadecimal digits. */
  predicate CharStandard(ch: Char) {
    && CharOk(ch) && !ch.Cut?
    && (ch.Plain? ==> ch.b >= 0x20 && ch.b != QUOTE)
    && (ch.Unit? ==> IsHex(ch.hex))
  }

  lemma {:induction false} ClosedJoin(a: bytes, b: bytes)
    requires Closed(a) && Closed(b)
    ensures Closed(a + b)
    decreases |a|
  {
    if a == [] {
      assert a + b == b;
    } else {
      var n := if a[0] == BACKSLASH then 2 else 1;
      assert (a + b)[n..] == a[n..] + b;
      ClosedJoin(a[n..], b);
    }
  }

  lemma CharIsClosed(ch: Char)
    requires CharStandard(ch)
    ensures Closed(CharText(ch))
  {
    match ch
    case Plain(b) =>
    case Short(letter) =>
    case Unit(hex) => EscapeIsClosed(hex);
    case Pair(high, low) =>
      EscapeIsClosed(high);
      EscapeIsClosed(low);
      ClosedJoin([BACKSLASH, Utf.LETTER_U] + high, [BACKSLASH, Utf.LETTER_U] + low);
  }

  lemma EscapeIsClosed(hex: bytes)
    requires IsHex(hex)
    ensures Closed([BACKSLASH, Utf.LETTER_U] + hex)
  {
    var t := [BACKSLASH, Utf.LETTER_U] + hex;
    assert t[2..] == hex && Closed(hex[4..]) && hex[3] != QUOTE && hex[3] != BACKSLASH;
    assert Closed(hex[3..]) && Closed(hex[2..]) && Closed(hex[1..]);
  }

  lemma {:induction false} StandardIsClosed(chars: seq<Char>)
    requires forall k :: 0 <= k < |chars| ==> CharStandard(chars[k])
    ensures Closed(CharsText(chars))
  {
    if chars != [] {
      StandardIsClosed(chars[1..]);
      CharIsClosed(chars[0]);
      ClosedJoin(CharText(chars[0]), CharsText(chars[1..]));
    }
  }

  ghost predicate StringStandard(chars: seq<Char>): (r: bool)
    ensures r ==> StringOk(chars)
  {
    if forall k :: 0 <= k < |chars| ==> CharStandard(chars[k]) then
      StandardIsClosed(chars);
      true
    else
      false
  }

  /** The numbers of the RFC: no leading zeros, and digits on both sides of a point. */
  predicate NumberStandard(n: NumberText) {
    && NumberOk(n) && n.whole != [] && (n.whole[0] == 0x30 ==> |n.whole| == 1)
    && (n.fraction.Some? ==> n.fraction.value != [])
  }

  predicate IsWhite(t: bytes) {
    forall k :: 0 <= k < |t| ==> t[k] in {SPACE, TAB, LF, CR}
  }

  /** The texts of RFC 8259 with paired surrogates and numbers of at most 63 bytes. */
  ghost predicate Standard(s: Syntax): (r: bool)
    ensures r ==> Ok(s)
  {
    match s
    case Num(n) => NumberStandard(n)
    case Str(chars) => StringStandard(chars)
    case Arr(blank, elements) =>
      IsWhite(blank)
      && forall k :: 0 <= k < |elements| ==>
           IsWhite(elements[k].before) && IsWhite(elements[k].after) && Standard(elements[k].value)
    case Obj(blank, entries) =>
      IsWhite(blank)
      && forall k :: 0 <= k < |entries| ==>
           && IsWhite(entries[k].before) && IsWhite(entries[k].beforeColon) && IsWhite(entries[k].afterColon)
           && IsWhite(entries[k].after) && StringStandard(entries[k].key) && Standard(entries[k].value)
    case _ => true
  }

  ghost predicate EntryStandard(e: Entry): (r: bool)
    ensures r ==> EntryOk(e)
  {
    && IsWhite(e.before) && IsWhite(e.beforeColon) && IsWhite(e.afterColon) && IsWhite(e.after)
    && StringStandard(e.key) && Standard(e.value)
  }

  /** Every text of RFC 8259, with white space around it, is taken for the value it denotes. */
  lemma StandardTextsAreTaken(before: bytes, s: Syntax, after: bytes)
    requires IsWhite(before) && Standard(s) && IsWhite(after) && NestsWithin(Value(s), NESTING_LIMIT)
    ensures ParseWithLength(before + Text(s) + after) == Some(Parsed(Value(s), |before| + |Text(s)|))
    ensures Parse(before + Text(s) + after) == Some(Parsed(Value(s), |before| + |Text(s)|))
  {
    TextsAreTaken(before, s, after);
  }

  // ---------------------------------------------------------------- the printer writes such texts

  function HexText(n: nat): bytes
    requires n < 0x100
  {
    [0x30, 0x30, LowerHex(n / 16), LowerHex(n % 16)]
  }

  /** A byte of a string as the printer writes it. */
  function CharOf(b: byte): Char {
    if b > 31 && b != QUOTE && b != BACKSLASH then Plain(b)
    else if ShortEscape(b).Some? then Short(ShortEscape(b).value)
    else Unit(HexText(b))
  }

  lemma CharOfIs(b: byte)
    ensures CharStandard(CharOf(b)) && CharOk(CharOf(b)) && !CharOf(b).Cut?
    ensures CharText(CharOf(b)) == EscapeByte(b) && CharBytes(CharOf(b)) == [b]
  {
    if b <= 31 && ShortEscape(b).None? {
      var hex := HexText(b);
      assert Utf.HexDigit(hex[0]) == Utf.HexDigit(hex[1]) == Some(0);
      assert Utf.HexDigit(hex[2]) == Some(b / 16) && Utf.HexDigit(hex[3]) == Some(b % 16);
      assert UnitOf(hex) == b;
    }
  }

  function CharsOf(s: bytes): (r: seq<Char>)
    ensures |r| == |s|
  {
    seq(|s|, k requires 0 <= k < |s| => CharOf(s[k]))
  }

  lemma {:induction false} CharsOfIs(s: bytes)
    ensures forall k :: 0 <= k < |s| ==> CharStandard(CharsOf(s)[k])
    ensures CharsOk(CharsOf(s)) && CharsText(CharsOf(s)) == Escape(s) && CharsBytes(CharsOf(s)) == s
  {
    hide CharOf, CharText, CharBytes, CharStandard, CharOk, EscapeByte;
    forall k | 0 <= k < |s|
      ensures CharStandard(CharsOf(s)[k]) && CharOk(CharsOf(s)[k]) && !CharsOf(s)[k].Cut?
    {
      CharOfIs(s[k]);
    }
    if s != [] {
      assert CharsOf(s)[1..] == CharsOf(s[1..]);
      CharsOfIs(s[1..]);
      CharOfIs(s[0]);
      assert [s[0]] + s[1..] == s;
    }
  }

  lemma StringOfIs(s: bytes)
    requires NUL !in s
    ensures StringStandard(CharsOf(s)) && StringText(CharsOf(s)) == Quoted(s)
    ensures CString(CharsBytes(CharsOf(s))) == s
  {
    CharsOfIs(s);
    CStringWhole(s);
  }

  function NumberTextOf(n: int): NumberText {
    NumberText(n < 0, Decimal.Digits(if n < 0 then -n else n), None, None)
  }

  lemma NumberTextIs(n: int)
    requires INT_MIN <= n <= INT_MAX
    ensures NumberStandard(NumberTextOf(n)) && Lexeme(NumberTextOf(n)) == Decimal.Signed(n)
    ensures NumberValue(NumberTextOf(n)) == Number(n)
  {
    hide Decimal.Digits, Decimal.Value, Whole, Denoted;
    var m: nat := if n < 0 then -n else n;
    var t := Decimal.Digits(m);
    R.TenDigits(m);
    assert Lexeme(NumberTextOf(n)) == Decimal.Signed(n);
    assert t[0..0 + |t|] == t;
    Decimal.ValueOfDigits(t, 0, m);
    DigitsDenote(NumberTextOf(n), m);
    NoLeadingZero(m);
    WholeIs(n);
  }

  lemma {:induction false} NoLeadingZero(m: nat)
    ensures Decimal.Digits(m)[0] == 0x30 ==> m == 0 && |Decimal.Digits(m)| == 1
  {
    if m >= 10 { NoLeadingZero(m / 10); }
  }

  lemma DigitsDenote(n: NumberText, m: int)
    requires NumberOk(n) && n.fraction.None? && n.exponent.None? && DigitsValue(n.whole) == m
    ensures Denoted(n) == Scaled(if n.minus then -m else m, 0)
  {
    hide NumberOk;
    assert Decimal.Pow10(0) == 1 && DigitsValue([]) == 0;
  }

  lemma WholeIs(n: int)
    ensures Whole(Scaled(n, 0)) == Some(n)
  {
  }

  /** A tree as the printer writes it, `depth` containers deep. */
  function SyntaxOf(v: Json, format: bool, depth: nat): Syntax
    requires Printable(v)
    decreases v
  {
    match v
    case Null => NullWord
    case False => FalseWord
    case True => TrueWord
    case Number(n) => Num(NumberTextOf(n))
    case String(s) => Str(CharsOf(s))
    case Array(items) => Arr([], ElementsOf(items, format, depth + 1))
    case Object(ms) => Obj(NewLine(format) + Indent(format, depth), EntriesOf(ms, format, depth))
  }

  function ElementsOf(items: seq<Json>, format: bool, depth: nat): (r: seq<Element>)
    requires forall k :: 0 <= k < |items| ==> Printable(items[k])
    ensures |r| == |items|
    decreases items
  {
    seq(|items|, k requires 0 <= k < |items| =>
      Element(if format && k > 0 then [SPACE] else [], SyntaxOf(items[k], format, depth), []))
  }

  function EntriesOf(ms: seq<Member>, format: bool, depth: nat): (r: seq<Entry>)
    requires forall k :: 0 <= k < |ms| ==> Printable(ms[k].value)
    ensures |r| == |ms|
    decreases ms
  {
    seq(|ms|, k requires 0 <= k < |ms| =>
      Entry(NewLine(format) + Indent(format, depth + 1), CharsOf(ms[k].key), [], if format then [TAB] else [],
            SyntaxOf(ms[k].value, format, depth + 1),
            if k + 1 < |ms| then [] else NewLine(format) + Indent(format, depth)))
  }

  lemma CommaMoves(before: bytes, text: bytes, lead: bytes, rest: bytes)
    ensures before + text + [] + ([COMMA] + (lead + rest)) == before + (text + (([COMMA] + lead) + rest))
  {
  }

  lemma JoinedStep(texts: seq<bytes>, i: nat, between: bytes, after: bytes)
    requires i < |texts|
    ensures Joined(texts, i, between, after) ==
            texts[i] + (if i + 1 < |texts| then between + Joined(texts, i + 1, between, after) else after)
  {
  }

  /** Separated texts, and the same with each separator's blanks given to the item behind it. */
  lemma {:induction false} ListedIsJoined(
      items: seq<Item>, texts: seq<bytes>, i: nat, lead: bytes, end: bytes, first: bytes)
    requires |items| == |texts| && i < |items|
    requires forall k :: i <= k < |items| ==>
               && items[k].before == (if k == 0 then first else lead) && items[k].text == texts[k]
               && items[k].after == if k + 1 < |items| then [] else end
    ensures Listed(items, i) == (if i == 0 then first else lead) + Joined(texts, i, [COMMA] + lead, end)
    decreases |items| - i
  {
    hide Joined, Listed;
    ListedStep(items, i);
    JoinedStep(texts, i, [COMMA] + lead, end);
    if i + 1 < |items| {
      ListedIsJoined(items, texts, i + 1, lead, end, first);
      CommaMoves(if i == 0 then first else lead, texts[i], lead, Joined(texts, i + 1, [COMMA] + lead, end));
    }
  }

  lemma Reassociate(a: bytes, b: bytes, s: bytes, l: bytes, r: bytes)
    ensures (a + b) + s + (l + r) == a + (b + (s + l) + r)
  {
  }

  /** A lead that every text starts with, moved into what is written before it; the same for what ends the list. */
  lemma {:induction false} LeadMoves(
      full: seq<bytes>, bare: seq<bytes>, i: nat, lead: bytes, between: bytes, after: bytes, tail: bytes)
    requires |full| == |bare| && i < |full| && forall k :: 0 <= k < |full| ==> full[k] == lead + bare[k]
    ensures Joined(full, i, between, after) + tail == lead + Joined(bare, i, between + lead, after + tail)
    decreases |full| - i
  {
    if i + 1 < |full| {
      LeadMoves(full, bare, i + 1, lead, between, after, tail);
      var rest, rest' := Joined(full, i + 1, between, after), Joined(bare, i + 1, between + lead, after + tail);
      assert full[i] + between + rest + tail == full[i] + between + (rest + tail);
      Reassociate(lead, bare[i], between, lead, rest');
    } else {
      assert full[i] + after + [] + tail == lead + (bare[i] + (after + tail) + []);
    }
  }

  /** The printer writes texts of RFC 8259: the text it prints for a tree is one, and denotes the tree. */
  lemma {:induction false} PrintIsText(v: Json, format: bool, depth: nat)
    requires Printable(v)
    ensures Standard(SyntaxOf(v, format, depth)) && Text(SyntaxOf(v, format, depth)) == Print(v, format, depth)
    ensures Value(SyntaxOf(v, format, depth)) == v
    decreases v, 1
  {
    match v
    case Array(items) => ArrayIsText(items, format, depth);
    case Object(ms) => ObjectIsText(ms, format, depth);
    case Number(n) => NumberTextIs(n);
    case String(s) => StringOfIs(s);
    case _ =>
  }

  lemma {:induction false} ElementsAre(items: seq<Json>, format: bool, depth: nat)
    requires forall k :: 0 <= k < |items| ==> Printable(items[k])
    ensures forall k :: 0 <= k < |items| ==>
              var e := ElementsOf(items, format, depth)[k];
              IsWhite(e.before) && IsWhite(e.after) && Standard(e.value) && Value(e.value) == items[k]
              && Text(e.value) == Print(items[k], format, depth)
    decreases items, 0
  {
    hide Print, Text, Value, Standard, SyntaxOf, Printable;
    forall k | 0 <= k < |items|
      ensures Standard(SyntaxOf(items[k], format, depth)) && Value(SyntaxOf(items[k], format, depth)) == items[k]
      ensures Text(SyntaxOf(items[k], format, depth)) == Print(items[k], format, depth)
    {
      PrintIsText(items[k], format, depth);
    }
  }

  lemma {:induction false} ArrayIsText(items: seq<Json>, format: bool, depth: nat)
    requires forall k :: 0 <= k < |items| ==> Printable(items[k])
    ensures var s := SyntaxOf(Array(items), format, depth);
            Standard(s) && Text(s) == Print(Array(items), format, depth) && Value(s) == Array(items)
    decreases items, 1
  {
    var elements := ElementsOf(items, format, depth + 1);
    ElementsAre(items, format, depth + 1);
    ArrText([], elements);
    ArrValue([], elements);
    ArrayTexts(items, elements, format, depth);
    assert ElementValues(elements) == items;
  }

  lemma ArrayTexts(items: seq<Json>, elements: seq<Element>, format: bool, depth: nat)
    requires |elements| == |items|
    requires forall k :: 0 <= k < |items| ==>
               && elements[k].before == (if format && k > 0 then [SPACE] else []) && elements[k].after == []
               && Text(elements[k].value) == Print(items[k], format, depth + 1)
    ensures [LBRACKET] + (if elements == [] then [] else Listed(ElementItems(elements), 0)) + [RBRACKET]
            == Print(Array(items), format, depth)
  {
    hide Print, Text;
    PrintOfArray(items, format, depth);
    if items != [] {
      var lead: bytes := if format then [SPACE] else [];
      ListedIsJoined(ElementItems(elements), ItemTexts(items, format, depth + 1), 0, lead, [], []);
      assert [COMMA] + lead == ItemSeparator(format);
      assert [] + Joined(ItemTexts(items, format, depth + 1), 0, ItemSeparator(format), [])
             == Joined(ItemTexts(items, format, depth + 1), 0, ItemSeparator(format), []);
    }
  }

  lemma {:induction false} EntriesAre(ms: seq<Member>, format: bool, depth: nat)
    requires forall k :: 0 <= k < |ms| ==> NUL !in ms[k].key && Printable(ms[k].value)
    ensures forall k :: 0 <= k < |ms| ==> EntryIs(EntriesOf(ms, format, depth)[k], ms[k], format, depth)
    decreases ms, 0
  {
    hide Print, Text, Value, Standard, SyntaxOf, Printable, CharsOk, CharsOf, CharsBytes, EntryIs;
    forall k | 0 <= k < |ms| ensures EntryIs(EntriesOf(ms, format, depth)[k], ms[k], format, depth) {
      PrintIsText(ms[k].value, format, depth + 1);
      OneEntryIs(EntriesOf(ms, format, depth)[k], ms[k], format, depth);
    }
  }

  /** An entry is one of RFC 8259, denotes the member and has the member's printed text. */
  ghost predicate EntryIs(e: Entry, m: Member, format: bool, depth: nat)
    requires NUL !in m.key && Printable(m.value)
  {
    && EntryStandard(e) && StringStandard(e.key) && Standard(e.value)
    && CString(CharsBytes(e.key)) == m.key && Value(e.value) == m.value
    && EntryText(e) == Quoted(m.key) + ColonText(format) + Print(m.value, format, depth + 1)
  }

  lemma OneEntryIs(e: Entry, m: Member, format: bool, depth: nat)
    requires NUL !in m.key && Printable(m.value)
    requires e.key == CharsOf(m.key) && e.beforeColon == [] && e.afterColon == (if format then [TAB] else [])
    requires e.before == NewLine(format) + Indent(format, depth + 1)
    requires e.after == [] || e.after == NewLine(format) + Indent(format, depth)
    requires Standard(e.value) && Value(e.value) == m.value && Text(e.value) == Print(m.value, format, depth + 1)
    ensures EntryIs(e, m, format, depth)
  {
    hide Print, Text, Value, Standard, SyntaxOf, Printable, CharsOk, CharsOf;
    hide CharsBytes, StringText, Quoted, CString, Indent;
    StringOfIs(m.key);
    IndentIsWhite(format, depth);
    IndentIsWhite(format, depth + 1);
    var tab: bytes := if format then [TAB] else [];
    assert [] + [COLON] + tab == ColonText(format);
  }

  lemma IndentIsWhite(format: bool, depth: nat)
    ensures IsWhite(NewLine(format) + Indent(format, depth))
  {
  }

  lemma {:induction false} ObjectIsText(ms: seq<Member>, format: bool, depth: nat)
    requires forall k :: 0 <= k < |ms| ==> NUL !in ms[k].key && Printable(ms[k].value)
    ensures Printable(Object(ms))
    ensures var s := SyntaxOf(Object(ms), format, depth);
            Standard(s) && Text(s) == Print(Object(ms), format, depth) && Value(s) == Object(ms)
    decreases ms, 1
  {
    hide Print, Text, Value, Standard, CharsOk, CharsOf, CharsBytes, Indent, EntryText;
    var entries, blank := EntriesOf(ms, format, depth), NewLine(format) + Indent(format, depth);
    EntriesAre(ms, format, depth);
    IndentIsWhite(format, depth);
    ObjOk(blank, entries);
    ObjText(blank, entries);
    ObjValue(blank, entries);
    ObjectTexts(ms, entries, format, depth);
    MembersAre(ms, entries);
  }

  lemma ObjOk(blank: bytes, entries: seq<Entry>)
    requires IsWhite(blank) && forall k :: 0 <= k < |entries| ==> EntryStandard(entries[k])
    ensures Standard(Obj(blank, entries))
  {
  }

  lemma MembersAre(ms: seq<Member>, entries: seq<Entry>)
    requires |entries| == |ms|
    requires forall k :: 0 <= k < |ms| ==>
               && StringOk(entries[k].key) && Ok(entries[k].value)
               && CString(CharsBytes(entries[k].key)) == ms[k].key && Value(entries[k].value) == ms[k].value
    ensures EntryValues(entries) == ms
  {
  }

  lemma ObjectTexts(ms: seq<Member>, entries: seq<Entry>, format: bool, depth: nat)
    requires |entries| == |ms|
    requires forall k :: 0 <= k < |ms| ==>
               && entries[k].before == NewLine(format) + Indent(format, depth + 1)
               && entries[k].after == (if k + 1 < |ms| then [] else NewLine(format) + Indent(format, depth))
               && EntryText(entries[k]) ==
                  Quoted(ms[k].key) + ColonText(format) + Print(ms[k].value, format, depth + 1)
    ensures [LBRACE] + (if entries == [] then NewLine(format) + Indent(format, depth)
                        else Listed(EntryItems(entries), 0)) + [RBRACE]
            == Print(Object(ms), format, depth)
  {
    hide Print, EntryText, Quoted, Listed, MemberText, MemberSeparator;
    PrintOfObject(ms, format, depth);
    var line, inner, outer := NewLine(format), Indent(format, depth + 1), Indent(format, depth);
    if ms != [] {
      MembersText(ms, entries, format, depth);
      Braced(line, inner, outer, Listed(EntryItems(entries), 0),
             Joined(MemberTexts(ms, format, depth + 1), 0, MemberSeparator(format), line));
    } else {
      assert [LBRACE] + (line + outer) + [RBRACE] == [LBRACE] + line + [] + outer + [RBRACE];
    }
  }

  lemma Braced(line: bytes, inner: bytes, outer: bytes, listed: bytes, joined: bytes)
    requires listed == line + (joined + outer)
    ensures [LBRACE] + listed + [RBRACE] == [LBRACE] + line + joined + outer + [RBRACE]
  {
  }

  /** The members between the braces: what the printer writes behind an entry's comma opens the next entry. */
  lemma MembersText(ms: seq<Member>, entries: seq<Entry>, format: bool, depth: nat)
    requires |entries| == |ms| > 0
    requires forall k :: 0 <= k < |ms| ==>
               && entries[k].before == NewLine(format) + Indent(format, depth + 1)
               && entries[k].after == (if k + 1 < |ms| then [] else NewLine(format) + Indent(format, depth))
               && EntryText(entries[k]) ==
                  Quoted(ms[k].key) + ColonText(format) + Print(ms[k].value, format, depth + 1)
    ensures Listed(EntryItems(entries), 0) == NewLine(format)
            + (Joined(MemberTexts(ms, format, depth + 1), 0, MemberSeparator(format), NewLine(format))
               + Indent(format, depth))
  {
    hide Print, EntryText, Quoted, Joined, Listed, MemberText, Indent;
    var line, inner, outer := NewLine(format), Indent(format, depth + 1), Indent(format, depth);
    var full := MemberTexts(ms, format, depth + 1);
    var bare := seq(|ms|, k requires 0 <= k < |ms| => EntryText(entries[k]));
    forall k | 0 <= k < |ms| ensures full[k] == inner + bare[k] {
      MemberTextIs(ms[k], format, depth + 1);
    }
    ListedIsJoined(EntryItems(entries), bare, 0, line + inner, line + outer, line + inner);
    LeadMoves(full, bare, 0, inner, MemberSeparator(format), line, outer);
    assert MemberSeparator(format) + inner == [COMMA] + (line + inner);
  }

  lemma MemberTextIs(m: Member, format: bool, depth: nat)
    ensures MemberText(m, format, depth) ==
            Indent(format, depth) + (Quoted(m.key) + ColonText(format) + Print(m.value, format, depth))
  {
    hide Print, Quoted;
  }
}
