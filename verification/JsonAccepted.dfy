/** What the parser takes is the text of a tree, and nothing else is: the converse of reading every such text. */
module JsonAccepted {
  import opened Bytes
  import opened JsonGrammar
  import opened JsonSyntax
  import opened JsonText
  import Utf

  lemma TextAtJoin(c: bytes, o: nat, a: bytes, b: bytes)
    requires TextAt(c, o, a) && TextAt(c, o + |a|, b)
    ensures TextAt(c, o, a + b)
  {
    TextAtSlice(c, o, a);
    TextAtSlice(c, o + |a|, b);
    TextAtSlice(c, o, a + b);
    assert c[o..o + |a| + |b|] == c[o..o + |a|] + c[o + |a|..o + |a| + |b|];
  }

  lemma TextAtRange(c: bytes, o: nat, e: nat)
    requires o <= e <= |c|
    ensures TextAt(c, o, c[o..e])
  {
    TextAtSlice(c, o, c[o..e]);
  }

  lemma OneByteAt(c: bytes, o: nat)
    requires o < |c|
    ensures TextAt(c, o, [c[o]])
  {
    TextAtSlice(c, o, [c[o]]);
    assert c[o..o + 1] == [c[o]];
  }

  // ---------------------------------------------------------------- strings

  /** The first pass ends at the first quote that has no backslash of its own. */
  lemma {:induction false} ClosedFound(c: bytes, i: nat, e: nat)
    requires i <= |c| && ClosingQuote(c, i) == Some(e)
    ensures Closed(c[i..e])
    decreases e - i
  {
    if i < e {
      var t, n := c[i..e], if c[i] == BACKSLASH then 2 else 1;
      ClosedFound(c, i + n, e);
      assert t[n..] == c[i + n..e] && t[0] == c[i];
    }
  }

  /** A `\u` escape the parser takes is a character or a pair of surrogates. */
  lemma EscapeFound(c: bytes, i: nat, e: nat) returns (ch: Char)
    requires i + 1 < e < |c| && c[i] == BACKSLASH && c[i + 1] == Utf.LETTER_U && Utf.LiteralAt(c, i, e).Some?
    ensures CharOk(ch) && !ch.Cut? && i + |CharText(ch)| <= e && CharText(ch) == c[i..i + |CharText(ch)|]
  {
    hide Utf.Hex4, UnitOf;
    var u: bytes := [BACKSLASH, Utf.LETTER_U];
    var first := c[i + 2..i + 6];
    assert c[i..i + 6] == u + first;
    TextAtRange(c, i + 2, i + 6);
    HexReads(c, i + 2, first);
    if Utf.IsHigh(UnitOf(first)) {
      var second := c[i + 8..i + 12];
      assert c[i + 6..i + 12] == u + second;
      assert c[i..i + 12] == c[i..i + 6] + c[i + 6..i + 12];
      TextAtRange(c, i + 8, i + 12);
      HexReads(c, i + 8, second);
      ch := Pair(first, second);
    } else {
      ch := Unit(first);
    }
  }

  lemma CharFound(c: bytes, i: nat, e: nat) returns (ch: Char)
    requires i < e < |c| && c[e] == QUOTE && Unescape(c, i, e).Some?
    ensures CharOk(ch) && (ch.Cut? ==> i + 1 == e)
    ensures 0 < |CharText(ch)| <= e - i && CharText(ch) == c[i..i + |CharText(ch)|]
  {
    hide Utf.LiteralAt, Utf.Encode;
    if c[i] != BACKSLASH {
      ch := Plain(c[i]);
    } else if c[i + 1] == Utf.LETTER_U {
      ch := EscapeFound(c, i, e);
    } else if i + 1 < e {
      ch := Short(c[i + 1]);
    } else {
      ch := Cut;
    }
  }

  /** What the second pass unescapes is a sequence of characters. */
  lemma {:induction false} CharsFound(c: bytes, i: nat, e: nat) returns (chars: seq<Char>)
    requires i <= e < |c| && c[e] == QUOTE && Unescape(c, i, e).Some?
    ensures CharsOk(chars) && CharsText(chars) == c[i..e]
    decreases e - i
  {
    hide CharText, CharOk, Unescape;
    chars := [];
    if i < e {
      var ch := CharFound(c, i, e);
      var j := i + |CharText(ch)|;
      TextAtRange(c, i, j);
      CharReads(c, i, e, ch);
      var rest := CharsFound(c, j, e);
      chars := [ch] + rest;
      assert chars[1..] == rest && c[i..j] + c[j..e] == c[i..e];
      if ch.Cut? { assert rest == [] by { NoText(rest); } }
      assert forall k :: 1 <= k < |chars| ==> chars[k] == rest[k - 1];
    }
  }

  lemma NoText(chars: seq<Char>)
    requires CharsText(chars) == [] && CharsOk(chars)
    ensures chars == []
  {
  }

  /** A string the parser reads is one that has its quotes, its two passes agreeing on where it ends. */
  lemma StringFound(c: bytes, o: nat) returns (chars: seq<Char>)
    requires ParseString(c, o).Some?
    ensures StringOk(chars) && TextAt(c, o, StringText(chars))
    ensures ParseString(c, o) == Some(Parsed(CString(CharsBytes(chars)), o + |StringText(chars)|))
  {
    hide ClosingQuote, Unescape, AgreesFrom, CharsOk, CharsText, CharsBytes, Closed;
    var e := ClosingQuote(c, o + 1).value;
    chars := CharsFound(c, o + 1, e);
    ClosedFound(c, o + 1, e);
    QuotedRange(c, o, e);
    hide ParseString;
    StringReads(c, o, chars);
  }

  lemma QuotedRange(c: bytes, o: nat, e: nat)
    requires o < e < |c| && c[o] == c[e] == QUOTE
    ensures TextAt(c, o, [QUOTE] + c[o + 1..e] + [QUOTE])
  {
    TextAtRange(c, o + 1, e);
    BracketsFound(c, o, c[o + 1..e]);
  }

  // ---------------------------------------------------------------- lists

  /** A visible byte that the skip ends at has only blanks before it. */
  lemma BlankFound(c: bytes, p: nat)
    requires p <= |c| && Skip(c, p) < |c| && c[Skip(c, p)] > 32
    ensures p <= Skip(c, p) && IsBlank(c[p..Skip(c, p)])
  {
    BlankUpTo(c, p);
  }

  lemma {:induction false} BlankUpTo(c: bytes, p: nat)
    requires p <= |c|
    ensures forall k :: p <= k < Visible(c, p) ==> c[k] <= 32
    decreases |c| - p
  {
    if p < |c| && c[p] <= 32 { BlankUpTo(c, p + 1); }
  }

  /** A list that is read has an item, and behind it the closing byte or a comma and a list. */
  lemma ListParts<T(!new)>(c: bytes, p: nat, item: nat -> Option<Parsed<T>>, close: byte)
    returns (s: nat, e: nat, q: nat)
    requires p <= |c| && Advancing(c, item) && ParseList(c, p, item, close).Some?
    ensures s == Skip(c, p) && item(s).Some? && e == item(s).value.next <= |c| && q == Skip(c, e) < |c|
    ensures if c[q] == COMMA then ParseList(c, q + 1, item, close).Some? else c[q] == close
    ensures ParseList(c, p, item, close).value.next ==
            if c[q] == COMMA then ParseList(c, q + 1, item, close).value.next else q + 1
  {
    hide Skip;
    s := Skip(c, p);
    e := item(s).value.next;
    q := Skip(c, e);
  }

  /** An item's text, between the blanks around it. */
  lemma ItemFound(c: bytes, p: nat, s: nat, e: nat, q: nat, text: bytes)
    requires p <= s <= e <= q <= |c| && TextAt(c, s, text) && s + |text| == e
    ensures TextAt(c, p, c[p..s] + text + c[e..q])
  {
    TextAtRange(c, p, s);
    TextAtRange(c, e, q);
    TextAtJoin(c, p, c[p..s], text);
    TextAtJoin(c, p, c[p..s] + text, c[e..q]);
  }

  lemma {:induction false} ListedTail(it: Item, rest: seq<Item>, i: nat)
    ensures Listed([it] + rest, i + 1) == Listed(rest, i)
    decreases |rest| - i
  {
    if i < |rest| {
      ListedStep([it] + rest, i + 1);
      ListedStep(rest, i);
      hide Listed;
      ListedTail(it, rest, i + 1);
    }
  }

  /** The text of a list, from that of its first item up to the comma at `q` and that of the list behind. */
  lemma ListFound(c: bytes, p: nat, q: nat, it: Item, rest: seq<Item>)
    requires TextAt(c, p, it.before + it.text + it.after) && q == p + |it.before + it.text + it.after| <= |c|
    requires rest != [] ==> q < |c| && c[q] == COMMA && TextAt(c, q + 1, Listed(rest, 0))
    ensures TextAt(c, p, Listed([it] + rest, 0))
    ensures |Listed([it] + rest, 0)| == q - p + if rest == [] then 0 else 1 + |Listed(rest, 0)|
  {
    hide AgreesFrom, Listed;
    ListedStep([it] + rest, 0);
    ListedTail(it, rest, 0);
    var own := it.before + it.text + it.after;
    if rest != [] {
      OneByteAt(c, q);
      TextAtJoin(c, q, [COMMA], Listed(rest, 0));
      TextAtJoin(c, p, own, [COMMA] + Listed(rest, 0));
    } else {
      assert own + [] == own;
    }
  }

  // ---------------------------------------------------------------- values

  /** A value the parser reads is the text of a tree that nests no deeper than the parser goes. */
  ghost predicate Found(c: bytes, o: nat, e: nat, s: Syntax, room: nat) {
    && Ok(s) && NestsWithin(Value(s), room) && (s.Num? ==> Longest(c, o, e))
    && TextAt(c, o, Text(s)) && o + |Text(s)| == e
  }

  lemma {:induction false} ValueFound(c: bytes, o: nat, room: nat) returns (s: Syntax)
    requires ParseValue(c, o, room).Some?
    ensures Found(c, o, ParseValue(c, o, room).value.next, s, room)
    decreases room, 1, 0
  {
    hide ParseString, ParseNumber, ParseArray, ParseObject, AgreesFrom, StringText, Lexeme, Longest;
    if TextAt(c, o, NULL_TEXT) {
      s := NullWord;
    } else if TextAt(c, o, FALSE_TEXT) {
      s := FalseWord;
    } else if TextAt(c, o, TRUE_TEXT) {
      s := TrueWord;
    } else if c[o] == QUOTE {
      var chars := StringFound(c, o);
      s := Str(chars);
    } else if c[o] == MINUS || IsDigit(c[o]) {
      s := NumFound(c, o, room);
    } else if c[o] == LBRACKET {
      s := ArrFound(c, o, room);
    } else {
      s := ObjFound(c, o, room);
    }
  }

  lemma NumFound(c: bytes, o: nat, room: nat) returns (s: Syntax)
    requires o < |c| && (c[o] == MINUS || IsDigit(c[o])) && ParseNumber(c, o).Some?
    ensures Found(c, o, ParseNumber(c, o).value.next, s, room)
  {
    hide StrtodEnd, Lexeme, NumberOf, Denoted, Whole, AgreesFrom, Longest;
    var w := o + NumberRun(c, o, 0);
    var n := NumberFound(c, o, w);
    StrtodIsLongest(c, o);
    s := Num(n);
  }

  lemma {:induction false} ElementsFound(c: bytes, p: nat, room: nat) returns (elements: seq<Element>)
    requires p <= |c| && ParseList(c, p, ValueParser(c, room), RBRACKET).Some?
    ensures elements != [] && ElementsFine(elements, room) && TextAt(c, p, Listed(ElementItems(elements), 0))
    ensures var e := p + |Listed(ElementItems(elements), 0)|;
            e < |c| && c[e] == RBRACKET && ParseList(c, p, ValueParser(c, room), RBRACKET).value.next == e + 1
    decreases room, 2, |c| - p
  {
    hide ParseValue, ParseList, Skip, Listed, Text, Value, Ok, NestsWithin, AgreesFrom, Longest, ElementsFine;
    var s, e, q := ListParts(c, p, ValueParser(c, room), RBRACKET);
    var tree := ValueFound(c, s, room);
    TextStarts(tree);
    TextAtByte(c, s, Text(tree), 0);
    BlankFound(c, p);
    BlankFound(c, e);
    var first := Element(c[p..s], tree, c[e..q]);
    var rest: seq<Element> := [];
    if c[q] == COMMA { rest := ElementsFound(c, q + 1, room); }
    elements := [first] + rest;
    FineMore(first, rest, room);
    assert ElementItems(elements) == [Item(c[p..s], Text(tree), c[e..q])] + ElementItems(rest);
    ItemFound(c, p, s, e, q, Text(tree));
    ListFound(c, p, q, Item(c[p..s], Text(tree), c[e..q]), ElementItems(rest));
  }

  /** Elements in order, none nesting deeper than `room`. */
  ghost predicate ElementsFine(elements: seq<Element>, room: nat) {
    forall k :: 0 <= k < |elements| ==>
      && IsBlank(elements[k].before) && IsBlank(elements[k].after) && Ok(elements[k].value)
      && NestsWithin(Value(elements[k].value), room)
  }

  lemma FineMore(first: Element, rest: seq<Element>, room: nat)
    requires IsBlank(first.before) && IsBlank(first.after) && Ok(first.value) && NestsWithin(Value(first.value), room)
    requires rest == [] || ElementsFine(rest, room)
    ensures ElementsFine([first] + rest, room)
  {
    hide Ok, Value, NestsWithin, IsBlank;
  }

  lemma SkipTwice(c: bytes, p: nat)
    requires p <= |c|
    ensures Skip(c, p) <= |c| && Skip(c, Skip(c, p)) == Skip(c, p)
  {
    VisibleTwice(c, p);
  }

  lemma {:induction false} VisibleTwice(c: bytes, p: nat)
    requires p <= |c|
    ensures Visible(c, Visible(c, p)) == Visible(c, p) && (Visible(c, p) == |c| > p ==> c[|c| - 1] <= 32)
    decreases |c| - p
  {
    if p < |c| && c[p] <= 32 { VisibleTwice(c, p + 1); }
  }

  /** What is read between brackets: blanks and the closing byte, or a list. */
  lemma BracketedParts<T(!new)>(c: bytes, o: nat, item: nat -> Option<Parsed<T>>, close: byte) returns (p: nat)
    requires o < |c| && Advancing(c, item) && ParseBracketed(c, o, item, close).Some?
    ensures o < p == Skip(c, o + 1) < |c|
    ensures if c[p] == close then ParseBracketed(c, o, item, close).value.next == p + 1
            else ParseBracketed(c, o, item, close) == ParseList(c, o + 1, item, close)
  {
    hide Skip, ParseList;
    p := Skip(c, o + 1);
    SkipTwice(c, o + 1);
    SameList(c, o + 1, p, item, close);
  }

  lemma BracketsFound(c: bytes, o: nat, inner: bytes)
    requires o < |c| && TextAt(c, o + 1, inner) && o + 1 + |inner| < |c|
    ensures TextAt(c, o, [c[o]] + inner + [c[o + 1 + |inner|]])
  {
    OneByteAt(c, o);
    OneByteAt(c, o + 1 + |inner|);
    TextAtJoin(c, o, [c[o]], inner);
    TextAtJoin(c, o, [c[o]] + inner, [c[o + 1 + |inner|]]);
  }

  lemma EmptyArr(c: bytes, o: nat, p: nat, room: nat) returns (s: Syntax)
    requires o < |c| && o < p == Skip(c, o + 1) < |c| && c[o] == LBRACKET && c[p] == RBRACKET && room > 0
    ensures Found(c, o, p + 1, s, room)
  {
    hide Skip, AgreesFrom, Text, Value, Ok, NestsWithin, Longest, IsBlank;
    s := Arr(c[o + 1..p], []);
    BlankFound(c, o + 1);
    TextAtRange(c, o + 1, p);
    BracketsFound(c, o, c[o + 1..p]);
    ArrText(c[o + 1..p], []);
    ArrFine(c[o + 1..p], [], room);
  }

  lemma {:induction false} ArrFound(c: bytes, o: nat, room: nat) returns (s: Syntax)
    requires o < |c| && c[o] == LBRACKET && ParseArray(c, o, room).Some?
    ensures Found(c, o, ParseArray(c, o, room).value.next, s, room)
    decreases room, 0, 0
  {
    hide ParseBracketed, ParseList, Skip, Listed, AgreesFrom, Text, Value, Ok, NestsWithin, Longest, IsBlank;
    hide ElementsFine, EntriesFine, ElementItems, EntryItems;
    var p := BracketedParts(c, o, ValueParser(c, room - 1), RBRACKET);
    if c[p] == RBRACKET {
      s := EmptyArr(c, o, p, room);
    } else {
      var elements := ElementsFound(c, o + 1, room - 1);
      s := Arr([], elements);
      BracketsFound(c, o, Listed(ElementItems(elements), 0));
      ArrText([], elements);
      ArrFine([], elements, room);
    }
  }

  lemma ArrFine(blank: bytes, elements: seq<Element>, room: nat)
    requires room > 0 && IsBlank(blank) && (elements == [] || ElementsFine(elements, room - 1))
    ensures Ok(Arr(blank, elements)) && NestsWithin(Value(Arr(blank, elements)), room)
  {
    ArrValue(blank, elements);
  }

  // ---------------------------------------------------------------- objects

  /** A member that is read has a key, a colon and a value, and blanks around the colon. */
  lemma MemberFound(c: bytes, k: nat, room: nat) returns (n: nat, q: nat, w: nat)
    requires ParseMember(c, k, room).Some?
    ensures k < n <= q < w < |c| && ParseString(c, k).Some? && n == ParseString(c, k).value.next && q == Skip(c, n)
    ensures c[q] == COLON && w == Skip(c, q + 1) && ParseValue(c, w, room).Some?
    ensures ParseMember(c, k, room).value.next == ParseValue(c, w, room).value.next
  {
    hide ParseString, Skip;
    n := ParseString(c, k).value.next;
    q := Skip(c, n);
    w := Skip(c, q + 1);
    hide ParseValue;
  }

  /** An entry as it lies in the text, without the white space around it. */
  ghost predicate EntryFound(c: bytes, k: nat, e: nat, entry: Entry, room: nat) {
    && EntryOk(entry) && NestsWithin(Value(entry.value), room)
    && TextAt(c, k, EntryText(entry)) && k + |EntryText(entry)| == e
  }

  lemma EntryParts(c: bytes, k: nat, n: nat, q: nat, w: nat, entry: Entry)
    requires k <= n <= q < w <= |c| && c[q] == COLON
    requires TextAt(c, k, StringText(entry.key)) && k + |StringText(entry.key)| == n
    requires entry.beforeColon == c[n..q] && entry.afterColon == c[q + 1..w] && TextAt(c, w, Text(entry.value))
    ensures TextAt(c, k, EntryText(entry)) && k + |EntryText(entry)| == w + |Text(entry.value)|
  {
    hide AgreesFrom, StringText, Text;
    OneByteAt(c, q);
    TextAtRange(c, n, q);
    TextAtRange(c, q + 1, w);
    TextAtJoin(c, n, c[n..q], [COLON]);
    TextAtJoin(c, n, c[n..q] + [COLON], c[q + 1..w]);
    TextAtJoin(c, k, StringText(entry.key), ColonPart(entry));
    TextAtJoin(c, k, StringText(entry.key) + ColonPart(entry), Text(entry.value));
  }

  /** One entry, with the blanks `before` and `after` it. */
  lemma OneEntryFound(c: bytes, k: nat, room: nat, before: bytes, after: bytes) returns (entry: Entry)
    requires ParseMember(c, k, room).Some? && IsBlank(before) && IsBlank(after)
    ensures EntryFound(c, k, ParseMember(c, k, room).value.next, entry, room)
    ensures entry.before == before && entry.after == after
    decreases room, 2, 0
  {
    hide ParseMember, ParseString, ParseValue, AgreesFrom, StringText, Text, Ok, Value, NestsWithin, Longest, Skip;
    var n, q, w := MemberFound(c, k, room);
    var chars := StringFound(c, k);
    var tree := ValueFound(c, w, room);
    TextStarts(tree);
    TextAtByte(c, w, Text(tree), 0);
    BlankFound(c, n);
    BlankFound(c, q + 1);
    entry := Entry(before, chars, c[n..q], c[q + 1..w], tree, after);
    EntryParts(c, k, n, q, w, entry);
  }

  /** Entries in order, none nesting deeper than `room`. */
  ghost predicate EntriesFine(entries: seq<Entry>, room: nat) {
    forall k :: 0 <= k < |entries| ==> EntryOk(entries[k]) && NestsWithin(Value(entries[k].value), room)
  }

  lemma EntryStarts(e: Entry)
    ensures EntryText(e) != [] && EntryText(e)[0] == QUOTE
  {
  }

  lemma {:induction false} EntriesFound(c: bytes, p: nat, room: nat) returns (entries: seq<Entry>)
    requires p <= |c| && ParseList(c, p, MemberParser(c, room), RBRACE).Some?
    ensures entries != [] && EntriesFine(entries, room) && TextAt(c, p, Listed(EntryItems(entries), 0))
    ensures var e := p + |Listed(EntryItems(entries), 0)|;
            e < |c| && c[e] == RBRACE && ParseList(c, p, MemberParser(c, room), RBRACE).value.next == e + 1
    decreases room, 3, |c| - p
  {
    hide ParseMember, ParseList, Skip, Listed, EntryText, Value, EntryOk, NestsWithin, AgreesFrom, IsBlank;
    var s, e, q := ListParts(c, p, MemberParser(c, room), RBRACE);
    MemberStarts(c, s, room);
    BlankFound(c, p);
    BlankFound(c, e);
    var first := OneEntryFound(c, s, room, c[p..s], c[e..q]);
    var rest: seq<Entry> := [];
    if c[q] == COMMA { rest := EntriesFound(c, q + 1, room); }
    entries := [first] + rest;
    var it := Item(c[p..s], EntryText(first), c[e..q]);
    assert EntryItems(entries) == [it] + EntryItems(rest);
    ItemFound(c, p, s, e, q, EntryText(first));
    ListFound(c, p, q, it, EntryItems(rest));
  }

  lemma MemberStarts(c: bytes, k: nat, room: nat)
    requires ParseMember(c, k, room).Some?
    ensures k < |c| && c[k] == QUOTE
  {
    hide ParseValue;
  }

  lemma EmptyObj(c: bytes, o: nat, p: nat, room: nat) returns (s: Syntax)
    requires o < |c| && o < p == Skip(c, o + 1) < |c| && c[o] == LBRACE && c[p] == RBRACE && room > 0
    ensures Found(c, o, p + 1, s, room)
  {
    hide Skip, AgreesFrom, Text, Value, Ok, NestsWithin, Longest, IsBlank;
    s := Obj(c[o + 1..p], []);
    BlankFound(c, o + 1);
    TextAtRange(c, o + 1, p);
    BracketsFound(c, o, c[o + 1..p]);
    ObjText(c[o + 1..p], []);
    ObjFine(c[o + 1..p], [], room);
  }

  lemma {:induction false} ObjFound(c: bytes, o: nat, room: nat) returns (s: Syntax)
    requires o < |c| && c[o] == LBRACE && ParseObject(c, o, room).Some?
    ensures Found(c, o, ParseObject(c, o, room).value.next, s, room)
    decreases room, 0, 0
  {
    hide ParseBracketed, ParseList, Skip, Listed, AgreesFrom, Text, Value, Ok, NestsWithin, Longest, IsBlank;
    hide ElementsFine, EntriesFine, ElementItems, EntryItems;
    var p := BracketedParts(c, o, MemberParser(c, room - 1), RBRACE);
    if c[p] == RBRACE {
      s := EmptyObj(c, o, p, room);
    } else {
      var entries := EntriesFound(c, o + 1, room - 1);
      s := Obj([], entries);
      BracketsFound(c, o, Listed(EntryItems(entries), 0));
      ObjText([], entries);
      ObjFine([], entries, room);
    }
  }

  lemma ObjFine(blank: bytes, entries: seq<Entry>, room: nat)
    requires room > 0 && IsBlank(blank) && (entries == [] || EntriesFine(entries, room - 1))
    ensures Ok(Obj(blank, entries)) && NestsWithin(Value(Obj(blank, entries)), room)
  {
    ObjValue(blank, entries);
  }

  // ---------------------------------------------------------------- documents

  /**
   * Up to `e` the text is a byte-order mark, if there is one, blanks, and the text of the tree `s` with the value
   * `v`. A number must be the longest at its place, and a mark is only one in a text of more than 4 bytes.
   */
  ghost predicate DocumentIs(c: bytes, mark: bool, before: bytes, s: Syntax, v: Json, e: nat) {
    && IsBlank(before) && Ok(s) && Value(s) == v && NestsWithin(v, NESTING_LIMIT) && (mark ==> |c| > 4)
    && e <= |c| && c[..e] == DocumentText(mark, before, s) && (s.Num? ==> Longest(c, e - |Text(s)|, e))
  }

  ghost predicate IsDocument(c: bytes, v: Json, e: nat) {
    exists mark, before, s :: DocumentIs(c, mark, before, s, v, e)
  }

  lemma DocumentTaken(c: bytes, mark: bool, before: bytes, s: Syntax, v: Json, e: nat)
    requires DocumentIs(c, mark, before, s, v, e)
    ensures ParseWithLength(c) == Some(Parsed(v, e))
  {
    hide AgreesFrom, ParseWithLength, Text, Value, Ok, NestsWithin, Longest;
    assert c[0..0 + e] == c[..e];
    TextAtSlice(c, 0, DocumentText(mark, before, s));
    DocumentReads(c, mark, before, s);
  }

  lemma DocumentFound(c: bytes) returns (mark: bool, before: bytes, s: Syntax)
    requires ParseWithLength(c).Some?
    ensures var r := ParseWithLength(c).value; DocumentIs(c, mark, before, s, r.value, r.next)
  {
    hide AgreesFrom, ParseValue, Text, Value, Ok, NestsWithin, Longest, Skip;
    var b := BomLength(c);
    var o := Skip(c, b);
    mark, before := b == 3, c[b..o];
    s := ValueFound(c, o, NESTING_LIMIT);
    var e := o + |Text(s)|;
    ValueReads(c, o, s, NESTING_LIMIT);
    TextStarts(s);
    TextAtByte(c, o, Text(s), 0);
    BlankFound(c, b);
    TextAtSlice(c, 0, if mark then BOM else []);
    TextAtSlice(c, o, Text(s));
    assert c[..e] == c[..b] + (c[b..o] + c[o..e]);
  }

  /** Exactly these texts are accepted, for exactly these values; what lies behind `e` is not looked at. */
  lemma AcceptedIff(c: bytes, v: Json, e: nat)
    ensures ParseWithLength(c) == Some(Parsed(v, e)) <==> IsDocument(c, v, e)
  {
    hide ParseWithLength, DocumentIs;
    if ParseWithLength(c) == Some(Parsed(v, e)) {
      var mark, before, s := DocumentFound(c);
      assert DocumentIs(c, mark, before, s, v, e);
    }
    if IsDocument(c, v, e) {
      var mark, before, s :| DocumentIs(c, mark, before, s, v, e);
      DocumentTaken(c, mark, before, s, v, e);
    }
  }
}
