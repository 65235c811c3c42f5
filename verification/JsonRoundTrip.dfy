/** Parsing undoes printing: every printable tree of at most 1000 nested containers reads back. */
module JsonRoundTrip {
  import opened Bytes
  import Decimal
  import opened JsonText
  import opened JsonGrammar
  import Utf

  /** The reader's result `r` is `value`, with `next` the offset behind it. */
  ghost predicate Read<T>(r: Option<Parsed<T>>, value: T, next: nat) {
    r.Some? && r.value.value == value && r.value.next == next
  }

  // ---------------------------------------------------------------- strings

  /** What `\u00XY` reads as. */
  lemma HexOfControl(c: bytes, i: nat, b: byte)
    requires b < 32 && TextAt(c, i, [0x30, 0x30, LowerHex(b / 16), LowerHex(b % 16)])
    ensures Utf.Hex4(c, i) == b
  {
    var t: bytes := [0x30, 0x30, LowerHex(b / 16), LowerHex(b % 16)];
    TextAtByte(c, i, t, 0);
    TextAtByte(c, i, t, 1);
    TextAtByte(c, i, t, 2);
    TextAtByte(c, i, t, 3);
    assert Utf.HexValue(c, i, 1) == Some(0);
    assert Utf.HexValue(c, i, 2) == Some(0);
    assert Utf.HexValue(c, i, 3) == Some((b / 16) as nat);
  }

  /** The first pass steps over one printed byte, without ending the string there. */
  lemma ClosingQuoteStep(c: bytes, i: nat, b: byte)
    requires TextAt(c, i, EscapeByte(b))
    ensures ClosingQuote(c, i) == ClosingQuote(c, i + |EscapeByte(b)|)
  {
    var t := EscapeByte(b);
    TextAtByte(c, i, t, 0);
    if |t| > 1 { TextAtByte(c, i, t, 1); }
    if |t| > 2 {
      TextAtByte(c, i, t, 2);
      TextAtByte(c, i, t, 3);
      TextAtByte(c, i, t, 4);
      TextAtByte(c, i, t, 5);
      assert ClosingQuote(c, i + 2) == ClosingQuote(c, i + 3);
      assert ClosingQuote(c, i + 3) == ClosingQuote(c, i + 4);
      assert ClosingQuote(c, i + 4) == ClosingQuote(c, i + 5);
    }
  }

  /** The second pass turns one printed byte back into that byte. */
  lemma UnescapeStep(c: bytes, i: nat, e: nat, b: byte)
    requires b != NUL && i + |EscapeByte(b)| <= e < |c| && TextAt(c, i, EscapeByte(b))
    ensures Unescape(c, i, e) == Prepend([b], Unescape(c, i + |EscapeByte(b)|, e))
  {
    var t := EscapeByte(b);
    TextAtByte(c, i, t, 0);
    if |t| == 2 {
      TextAtByte(c, i, t, 1);
    } else if |t| > 2 {
      TextAtByte(c, i, t, 1);
      var hex: bytes := [0x30, 0x30, LowerHex(b / 16), LowerHex(b % 16)];
      var u: bytes := [BACKSLASH, 0x75];
      assert t == u + hex;
      TextAtSplit(c, i, u, hex);
      HexOfControl(c, i + 2, b);
      assert Utf.Encode(b) == [b];
    }
  }

  lemma EscapeSplit(c: bytes, i: nat, s: bytes)
    requires s != [] && TextAt(c, i, Escape(s))
    ensures TextAt(c, i, EscapeByte(s[0])) && TextAt(c, i + |EscapeByte(s[0])|, Escape(s[1..]))
    ensures |Escape(s)| == |EscapeByte(s[0])| + |Escape(s[1..])|
  {
    hide EscapeByte, AgreesFrom;
    TextAtSplit(c, i, EscapeByte(s[0]), Escape(s[1..]));
  }

  lemma {:induction false} EscapedReadsBack(c: bytes, i: nat, s: bytes, e: nat)
    requires NUL !in s && TextAt(c, i, Escape(s)) && e == i + |Escape(s)| < |c| && c[e] == QUOTE
    ensures ClosingQuote(c, i) == Some(e)
    ensures Unescape(c, i, e) == Some(s)
    decreases |s|
  {
    if s != [] {
      var b, rest, next := s[0], s[1..], i + |EscapeByte(s[0])|;
      EscapeSplit(c, i, s);
      EscapedReadsBack(c, next, rest, e);
      ClosingQuoteStep(c, i, b);
      UnescapeStep(c, i, e, b);
      assert [b] + rest == s;
    }
  }

  /** The parser's string reader undoes the printer's string writer. */
  lemma QuotedReadsBack(c: bytes, o: nat, s: bytes)
    requires NUL !in s && TextAt(c, o, Quoted(s))
    ensures Read(ParseString(c, o), s, o + |Quoted(s)|)
    ensures c[o] == QUOTE
  {
    var q: bytes := [QUOTE];
    TextAtSplit(c, o, q + Escape(s), q);
    TextAtSplit(c, o, q, Escape(s));
    TextAtByte(c, o, q, 0);
    TextAtByte(c, o + 1 + |Escape(s)|, q, 0);
    EscapedReadsBack(c, o + 1, s, o + 1 + |Escape(s)|);
    CStringWhole(s);
  }

  // ---------------------------------------------------------------- numbers

  predicate EndsNumber(c: bytes, i: nat) {
    i < |c| ==> !IsNumberByte(c[i])
  }

  lemma {:induction false} RunOfDigits(c: bytes, o: nat, e: nat, n: nat)
    requires o + n <= e <= |c| && e - o <= NUMBER_LIMIT
    requires forall i :: o <= i < e ==> IsNumberByte(c[i])
    requires EndsNumber(c, e)
    ensures NumberRun(c, o, n) == e - o
    decreases e - o - n
  {
    if o + n < e { RunOfDigits(c, o, e, n + 1); }
  }

  lemma {:induction false} DigitsReachEnd(c: bytes, i: nat, e: nat)
    requires i <= e <= |c| && forall k :: i <= k < e ==> IsDigit(c[k])
    ensures Decimal.DigitsEnd(c, i, e) == e
    decreases e - i
  {
    if i < e { DigitsReachEnd(c, i + 1, e); }
  }

  lemma TenDigits(m: nat)
    requires m <= 0x8000_0000
    ensures |Decimal.Digits(m)| <= 10
  {
    assert Decimal.Pow10(10) == 100000 * Decimal.Pow10(5);
    assert Decimal.Pow10(5) == 100000;
    Decimal.DigitsLength(m, 10);
  }

  /** Where strtod stops on digits `c[i..e]`, after a minus sign if `i` is not `o`. */
  lemma StrtodReachesEnd(c: bytes, o: nat, i: nat, e: nat)
    requires o <= i < e <= |c| && i <= o + 1 && (c[o] == MINUS <==> i == o + 1)
    requires forall k :: i <= k < e ==> IsDigit(c[k])
    ensures StrtodEnd(c, o, e) == e
  {
    hide Decimal.DigitsEnd;
    DigitsReachEnd(c, i, e);
    assert SignEnd(c, o, e) == i;
  }

  /** The lexeme of digits with value `m`, behind a minus sign if `i` is not 0. */
  lemma NumberOfDigits(t: bytes, i: nat, m: nat)
    requires i < |t| && i <= 1 && (t[0] == MINUS <==> i == 1)
    requires (forall k :: i <= k < |t| ==> IsDigit(t[k])) && Decimal.Value(t, i, |t|) == m
    ensures ScaledOf(t) == Scaled(if i == 0 then m as int else -(m as int), 0)
  {
    hide Decimal.DigitsEnd;
    var e := |t|;
    DigitsReachEnd(t, i, e);
    assert SignEnd(t, 0, e) == i && Decimal.DigitsEnd(t, e, e) == e;
    assert Decimal.Value(t, e, e) == 0 && Decimal.Pow10(0) == 1;
  }

  /** Digits `c[i..e]`, after a minus sign if `i` is not `o`, are read whole. */
  lemma IntegerReadsBack(c: bytes, o: nat, i: nat, e: nat, n: int)
    requires o <= i < e <= |c| && e - o <= 11 && i <= o + 1 && EndsNumber(c, e)
    requires c[o] == MINUS <==> i == o + 1
    requires forall k :: i <= k < e ==> IsDigit(c[k])
    requires NumberOf(c[o..e]) == Number(n)
    ensures Read(ParseNumber(c, o), Number(n), e)
  {
    hide NumberRun, StrtodEnd, NumberOf, ParseNumber;
    RunOfDigits(c, o, e, 0);
    StrtodReachesEnd(c, o, i, e);
    ParseNumberIs(c, o, e - o, e, NumberOf(c[o..e]));
  }

  /** Sign and digits of a printed number. */
  lemma SignedAt(c: bytes, o: nat, n: int, i: nat, e: nat, m: nat)
    requires TextAt(c, o, Decimal.Signed(n)) && e == o + |Decimal.Signed(n)|
    requires if n < 0 then i == o + 1 && m == -n else i == o && m == n
    ensures TextAt(c, i, Decimal.Digits(m)) && i < e == i + |Decimal.Digits(m)| <= |c|
    ensures c[o] == MINUS <==> i == o + 1
  {
    hide Decimal.Digits, AgreesFrom;
    var sign: bytes := if n < 0 then [MINUS] else [];
    assert Decimal.Signed(n) == sign + Decimal.Digits(m);
    TextAtSplit(c, o, sign, Decimal.Digits(m));
    TextAtByte(c, o, Decimal.Signed(n), 0);
  }

  /** The number a printed integer's text denotes. */
  lemma SignedDenotes(n: int)
    requires INT_MIN <= n <= INT_MAX
    ensures NumberOf(Decimal.Signed(n)) == Number(n)
  {
    var m: nat := if n < 0 then -n else n;
    var i, t := if n < 0 then 1 else 0, Decimal.Signed(n);
    assert t[i..i + |Decimal.Digits(m)|] == Decimal.Digits(m);
    Decimal.ValueOfDigits(t, i, m);
    NumberOfDigits(t, i, m);
    NumberOfIff(t, n);
    assert Decimal.Pow10(0) == 1;
  }

  lemma DigitsAt(c: bytes, i: nat, m: nat)
    requires TextAt(c, i, Decimal.Digits(m)) && m <= 0x8000_0000
    ensures var e := i + |Decimal.Digits(m)|;
            e <= |c| && e - i <= 10 && forall k :: i <= k < e ==> IsDigit(c[k])
  {
    hide AgreesFrom;
    TenDigits(m);
    TextAtSlice(c, i, Decimal.Digits(m));
    Decimal.DigitsInPlace(c, i, m);
  }

  lemma NumberReadsBack(c: bytes, o: nat, n: int)
    requires INT_MIN <= n <= INT_MAX
    requires TextAt(c, o, Decimal.Signed(n)) && EndsNumber(c, o + |Decimal.Signed(n)|)
    ensures Read(ParseNumber(c, o), Number(n), o + |Decimal.Signed(n)|)
  {
    hide ParseNumber, NumberOf, Decimal.Signed, Decimal.Digits, AgreesFrom;
    var m: nat := if n < 0 then -n else n;
    var i, e := if n < 0 then o + 1 else o, o + |Decimal.Signed(n)|;
    SignedAt(c, o, n, i, e, m);
    DigitsAt(c, i, m);
    SignedDenotes(n);
    TextAtSlice(c, o, Decimal.Signed(n));
    IntegerReadsBack(c, o, i, e, n);
  }

  // ---------------------------------------------------------------- whitespace and scalars

  ghost predicate Blank(c: bytes, p: nat, q: nat) {
    p <= q <= |c| && forall i :: p <= i < q ==> c[i] <= 32
  }

  lemma {:induction false} SkipBlank(c: bytes, p: nat, q: nat)
    requires Blank(c, p, q) && q < |c| && c[q] > 32
    ensures Visible(c, p) == q && Skip(c, p) == q
    decreases q - p
  {
    if p < q { SkipBlank(c, p + 1, q); }
  }

  /** Every printed value starts with a visible ASCII byte that closes nothing. */
  lemma PrintStartsVisible(v: Json, format: bool, depth: nat)
    requires Printable(v)
    ensures |Print(v, format, depth)| > 0
    ensures 32 < Print(v, format, depth)[0] < 0x80
    ensures Print(v, format, depth)[0] !in {RBRACKET, RBRACE}
  {
  }

  lemma NotText(c: bytes, o: nat, t: bytes)
    requires o < |c| && |t| > 0 && c[o] != t[0]
    ensures !TextAt(c, o, t)
  {
  }

  lemma NotLiteral(c: bytes, o: nat)
    requires o < |c| && c[o] !in {NULL_TEXT[0], FALSE_TEXT[0], TRUE_TEXT[0]}
    ensures !TextAt(c, o, NULL_TEXT) && !TextAt(c, o, FALSE_TEXT) && !TextAt(c, o, TRUE_TEXT)
  {
    NotText(c, o, NULL_TEXT);
    NotText(c, o, FALSE_TEXT);
    NotText(c, o, TRUE_TEXT);
  }

  lemma ScalarReadsBack(c: bytes, o: nat, v: Json, format: bool, depth: nat, room: nat)
    requires Printable(v) && !v.Array? && !v.Object?
    requires TextAt(c, o, Print(v, format, depth)) && EndsNumber(c, o + |Print(v, format, depth)|)
    ensures Read(ParseValue(c, o, room), v, o + |Print(v, format, depth)|)
  {
    TextAtByte(c, o, Print(v, format, depth), 0);
    match v
    case Null =>
    case False => NotText(c, o, NULL_TEXT);
    case True => NotText(c, o, NULL_TEXT); NotText(c, o, FALSE_TEXT);
    case Number(n) => NotLiteral(c, o); NumberReadsBack(c, o, n);
    case String(s) => NotLiteral(c, o); QuotedReadsBack(c, o, s);
  }

  // ---------------------------------------------------------------- lists

  /** An item lies in `start..end`; its comma or the closing byte is at `stop`. */
  datatype Span = Span(start: nat, end: nat, stop: nat)

  /** From span `i` on, the spans follow one another from `p`, commas between them, up to `close`. */
  ghost predicate SpansFrom(c: bytes, p: nat, spans: seq<Span>, i: nat, close: byte)
    requires i < |spans|
    decreases |spans| - i
  {
    var s := spans[i];
    && Blank(c, p, s.start) && s.start < |c| && c[s.start] > 32
    && Blank(c, s.end, s.stop) && s.stop < |c|
    && (if i + 1 < |spans| then c[s.stop] == COMMA && SpansFrom(c, s.stop + 1, spans, i + 1, close)
        else c[s.stop] == close)
  }

  /** The reader finds each item at its span. */
  ghost predicate ItemsAt<T(!new)>(item: nat -> Option<Parsed<T>>, spans: seq<Span>, items: seq<T>) {
    |items| == |spans| &&
    forall k :: 0 <= k < |spans| ==> Read(item(spans[k].start), items[k], spans[k].end)
  }

  /** A list whose items the reader finds at the spans is read as exactly those items. */
  lemma {:induction false} ListFromSpans<T(!new)>(
      c: bytes, p: nat, item: nat -> Option<Parsed<T>>, close: byte, items: seq<T>, spans: seq<Span>, i: nat)
    requires Advancing(c, item) && close > 32 && close != COMMA
    requires i < |spans| && SpansFrom(c, p, spans, i, close) && ItemsAt(item, spans, items)
    ensures Read(ParseList(c, p, item, close), From(items, i), spans[|spans| - 1].stop + 1)
    decreases |items| - i
  {
    hide Skip, ParseList;
    var s := spans[i];
    SkipBlank(c, p, s.start);
    SkipBlank(c, s.end, s.stop);
    assert Read(item(s.start), items[i], s.end);
    ListIsTurn(c, p, item, close, s.stop, ParseList(c, s.stop + 1, item, close));
    if i + 1 < |items| {
      ListFromSpans(c, s.stop + 1, item, close, items, spans, i + 1);
    }
  }

  // ---------------------------------------------------------------- layout of joined texts

  /** `t` starts with `lead` blanks and then a visible byte. */
  ghost predicate Led(t: bytes, lead: nat) {
    lead < |t| && t[lead] > 32 && forall j :: 0 <= j < lead ==> t[j] <= 32
  }

  ghost predicate AllBlank(t: bytes) {
    forall j :: 0 <= j < |t| ==> t[j] <= 32
  }

  lemma BlankText(c: bytes, q: nat, t: bytes)
    requires TextAt(c, q, t) && AllBlank(t)
    ensures Blank(c, q, q + |t|)
  {
    forall i | q <= i < q + |t| ensures c[i] <= 32 {
      TextAtByte(c, q, t, i - q);
    }
  }

  lemma LedAt(c: bytes, q: nat, t: bytes, lead: nat)
    requires TextAt(c, q, t) && Led(t, lead)
    ensures q + lead < |c| && c[q + lead] == t[lead] && Blank(c, q, q + lead)
  {
    TextAtByte(c, q, t, lead);
    forall i | q <= i < q + lead ensures c[i] <= 32 {
      TextAtByte(c, q, t, i - q);
    }
  }

  /** One joined text at `q`, the separator behind it at `e`, and the next text at `r`. */
  lemma JoinedHead(c: bytes, q: nat, texts: seq<bytes>, i: nat, between: bytes, after: bytes)
    returns (e: nat, r: nat)
    requires i < |texts| && TextAt(c, q, Joined(texts, i, between, after))
    ensures e == q + |texts[i]| && TextAt(c, q, texts[i])
    ensures i + 1 < |texts| ==> TextAt(c, e, between) && r == e + |between|
    ensures i + 1 == |texts| ==> TextAt(c, e, after) && r == e + |after|
    ensures TextAt(c, r, Joined(texts, i + 1, between, after))
    ensures r + |Joined(texts, i + 1, between, after)| == q + |Joined(texts, i, between, after)|
  {
    var sep := if i + 1 < |texts| then between else after;
    e, r := q + |texts[i]|, q + |texts[i]| + |sep|;
    TextAtSplit(c, q, texts[i] + sep, Joined(texts, i + 1, between, after));
    TextAtSplit(c, q, texts[i], sep);
  }

  /** How items are separated: a comma and blanks between two, blanks after the last. */
  ghost predicate Separators(between: bytes, after: bytes) {
    |between| > 0 && between[0] == COMMA && AllBlank(between[1..]) && AllBlank(after)
  }

  lemma BetweenAt(c: bytes, e: nat, between: bytes, after: bytes)
    requires Separators(between, after) && TextAt(c, e, between)
    ensures e < |c| && c[e] == COMMA && Blank(c, e + 1, e + |between|)
  {
    var comma: bytes := between[..1];
    assert between == comma + between[1..];
    TextAtSplit(c, e, comma, between[1..]);
    TextAtByte(c, e, between, 0);
    BlankText(c, e + 1, between[1..]);
  }

  /** Where text `k` starts when the texts are joined at `q` with `gap` bytes between two. */
  function TextStart(q: nat, texts: seq<bytes>, k: nat, gap: nat): (r: nat)
    requires k <= |texts|
  {
    if k == 0 then q else TextStart(q, texts, k - 1, gap) + |texts[k - 1]| + gap
  }

  /** Span of text `k`; what follows the last text ends at `z`. */
  function SpanOf(q: nat, texts: seq<bytes>, k: nat, gap: nat, lead: nat, z: nat): Span
    requires k < |texts|
  {
    var start := TextStart(q, texts, k, gap);
    Span(start + lead, start + |texts[k]|, if k + 1 < |texts| then start + |texts[k]| else z)
  }

  function SpansOf(q: nat, texts: seq<bytes>, gap: nat, lead: nat, z: nat): seq<Span> {
    seq(|texts|, k requires 0 <= k < |texts| => SpanOf(q, texts, k, gap, lead, z))
  }

  lemma {:induction false} JoinedTail(c: bytes, q: nat, texts: seq<bytes>, k: nat, between: bytes, after: bytes)
    requires k < |texts| && TextAt(c, q, Joined(texts, 0, between, after))
    ensures TextAt(c, TextStart(q, texts, k, |between|), Joined(texts, k, between, after))
    ensures TextStart(q, texts, k, |between|) + |Joined(texts, k, between, after)|
            == q + |Joined(texts, 0, between, after)|
  {
    if k > 0 {
      JoinedTail(c, q, texts, k - 1, between, after);
      var e, r := JoinedHead(c, TextStart(q, texts, k - 1, |between|), texts, k - 1, between, after);
    }
  }

  /** What text `k` and the bytes behind it look like. */
  lemma TextFacts(
      c: bytes, q: nat, z: nat, texts: seq<bytes>, k: nat, between: bytes, after: bytes, lead: nat)
    requires k < |texts| && Led(texts[k], lead) && Separators(between, after)
    requires TextAt(c, q, Joined(texts, 0, between, after)) && Blank(c, q + |Joined(texts, 0, between, after)|, z)
    ensures var start := TextStart(q, texts, k, |between|);
            var end := start + |texts[k]|;
            && TextAt(c, start, texts[k])
            && Blank(c, start, start + lead) && start + lead < |c| && c[start + lead] > 32
            && (k + 1 < |texts| ==>
                  end < |c| && c[end] == COMMA && Blank(c, end + 1, TextStart(q, texts, k + 1, |between|)))
            && (k + 1 == |texts| ==> Blank(c, end, z))
            && (z < |c| && c[z] in {RBRACKET, RBRACE} ==> EndsNumber(c, end))
  {
    var start := TextStart(q, texts, k, |between|);
    JoinedTail(c, q, texts, k, between, after);
    var e, r := JoinedHead(c, start, texts, k, between, after);
    LedAt(c, start, texts[k], lead);
    if k + 1 < |texts| {
      BetweenAt(c, e, between, after);
    } else {
      BlankText(c, e, after);
      BlankJoin(c, e, r, z);
    }
  }

  /** The same, told of the text's span. */
  lemma SpanFacts(c: bytes, q: nat, z: nat, texts: seq<bytes>, k: nat, between: bytes, after: bytes, lead: nat)
    returns (s: Span)
    requires k < |texts| && Led(texts[k], lead) && Separators(between, after)
    requires TextAt(c, q, Joined(texts, 0, between, after)) && Blank(c, q + |Joined(texts, 0, between, after)|, z)
    requires z < |c| && c[z] in {RBRACKET, RBRACE}
    ensures s == SpanOf(q, texts, k, |between|, lead, z) && lead <= s.start
    ensures TextAt(c, s.start - lead, texts[k]) && s.end == s.start - lead + |texts[k]| && EndsNumber(c, s.end)
  {
    TextFacts(c, q, z, texts, k, between, after, lead);
    s := SpanOf(q, texts, k, |between|, lead, z);
  }

  lemma BlankJoin(c: bytes, p: nat, q: nat, r: nat)
    requires Blank(c, p, q) && Blank(c, q, r)
    ensures Blank(c, p, r)
  {
  }

  /** What surrounds span `k`: its stop, and only blanks up to the next span. */
  lemma SpanStep(
      c: bytes, q: nat, z: nat, texts: seq<bytes>, k: nat, between: bytes, after: bytes, lead: nat, close: byte)
    requires k < |texts| && Led(texts[k], lead) && Separators(between, after)
    requires k + 1 < |texts| ==> Led(texts[k + 1], lead)
    requires TextAt(c, q, Joined(texts, 0, between, after)) && Blank(c, q + |Joined(texts, 0, between, after)|, z)
    requires z < |c| && c[z] == close
    ensures var s := SpanOf(q, texts, k, |between|, lead, z);
            && s.start < |c| && c[s.start] > 32 && Blank(c, s.end, s.stop) && s.stop < |c|
            && (if k + 1 < |texts|
                then c[s.stop] == COMMA && Blank(c, s.stop + 1, SpanOf(q, texts, k + 1, |between|, lead, z).start)
                else c[s.stop] == close)
  {
    TextFacts(c, q, z, texts, k, between, after, lead);
    if k + 1 < |texts| {
      var next := TextStart(q, texts, k + 1, |between|);
      TextFacts(c, q, z, texts, k + 1, between, after, lead);
      BlankJoin(c, TextStart(q, texts, k, |between|) + |texts[k]| + 1, next, next + lead);
    }
  }

  /** Texts joined at `q`, with blanks and then `close` at `z` behind them, lie at their spans. */
  lemma {:induction false} JoinedSpans(
      c: bytes, p: nat, q: nat, z: nat, texts: seq<bytes>, i: nat, between: bytes, after: bytes, lead: nat, close: byte,
      spans: seq<Span>)
    requires i < |texts| && Separators(between, after) && spans == SpansOf(q, texts, |between|, lead, z)
    requires forall k :: 0 <= k < |texts| ==> Led(texts[k], lead)
    requires TextAt(c, q, Joined(texts, 0, between, after)) && Blank(c, q + |Joined(texts, 0, between, after)|, z)
    requires Blank(c, p, spans[i].start) && z < |c| && c[z] == close
    ensures SpansFrom(c, p, spans, i, close)
    decreases |texts| - i
  {
    SpanStep(c, q, z, texts, i, between, after, lead, close);
    if i + 1 < |texts| {
      JoinedSpans(c, spans[i].stop + 1, q, z, texts, i + 1, between, after, lead, close, spans);
    }
  }

  /** A joined list of texts, each of which the reader reads back, is read back. */
  lemma ListReadsBack<T(!new)>(
      c: bytes, q: nat, z: nat, texts: seq<bytes>, between: bytes, after: bytes, lead: nat, close: byte,
      items: seq<T>, item: nat -> Option<Parsed<T>>)
    requires |texts| == |items| > 0 && Separators(between, after) && close > 32 && close != COMMA
    requires forall k :: 0 <= k < |texts| ==> Led(texts[k], lead)
    requires TextAt(c, q, Joined(texts, 0, between, after)) && Blank(c, q + |Joined(texts, 0, between, after)|, z)
    requires z < |c| && c[z] == close && q + lead < |c| && Advancing(c, item)
    requires ItemsAt(item, SpansOf(q, texts, |between|, lead, z), items)
    ensures Read(ParseList(c, q + lead, item, close), From(items, 0), z + 1)
  {
    var spans := SpansOf(q, texts, |between|, lead, z);
    assert spans[0].start == q + lead;
    JoinedSpans(c, q + lead, q, z, texts, 0, between, after, lead, close, spans);
    ListFromSpans(c, q + lead, item, close, items, spans, 0);
  }

  // ---------------------------------------------------------------- containers

  lemma ItemTextLed(v: Json, format: bool, depth: nat)
    requires Printable(v)
    ensures Led(Print(v, format, depth), 0) && Print(v, format, depth)[0] != RBRACKET
  {
    PrintStartsVisible(v, format, depth);
  }

  lemma MemberTextLed(m: Member, format: bool, depth: nat)
    ensures Led(MemberText(m, format, depth), |Indent(format, depth)|)
    ensures MemberText(m, format, depth)[|Indent(format, depth)|] == QUOTE
  {
    var t := MemberText(m, format, depth);
    assert t[|Indent(format, depth)|] == QUOTE;
    forall j | 0 <= j < |Indent(format, depth)| ensures t[j] <= 32 {
      assert t[j] == Indent(format, depth)[j];
    }
  }

  lemma EmptyBracketed<T(!new)>(c: bytes, o: nat, z: nat, item: nat -> Option<Parsed<T>>, close: byte)
    requires o < z < |c| && Blank(c, o + 1, z) && c[z] == close && close > 32 && Advancing(c, item)
    ensures Read(ParseBracketed(c, o, item, close), [], z + 1)
  {
    SkipBlank(c, o + 1, z);
  }

  /** A bracketed list of texts, each of which the reader reads back, is read back. */
  lemma BracketedReadsBack<T(!new)>(
      c: bytes, o: nat, q: nat, z: nat, texts: seq<bytes>, between: bytes, after: bytes, lead: nat, close: byte,
      items: seq<T>, item: nat -> Option<Parsed<T>>)
    requires o < |c| && Blank(c, o + 1, q)
    requires |texts| == |items| > 0 && Separators(between, after) && close in {RBRACKET, RBRACE}
    requires forall k :: 0 <= k < |texts| ==> Led(texts[k], lead) && texts[k][lead] != close
    requires TextAt(c, q, Joined(texts, 0, between, after)) && Blank(c, q + |Joined(texts, 0, between, after)|, z)
    requires z < |c| && c[z] == close && Advancing(c, item)
    requires ItemsAt(item, SpansOf(q, texts, |between|, lead, z), items)
    ensures Read(ParseBracketed(c, o, item, close), items, z + 1)
  {
    hide ParseList, Skip, Joined, AgreesFrom;
    TextFacts(c, q, z, texts, 0, between, after, lead);
    TextAtByte(c, q, texts[0], lead);
    ListReadsBack(c, q, z, texts, between, after, lead, close, items, item);
    FromIsSuffix(items, 0);
    BlankJoin(c, o + 1, q, q + lead);
    SkipBlank(c, o + 1, q + lead);
  }

  lemma ArrayFromList(c: bytes, o: nat, room: nat, items: seq<Json>, e: nat)
    requires o < |c| && c[o] == LBRACKET && room > 0
    requires Read(ParseBracketed(c, o, ValueParser(c, room - 1), RBRACKET), items, e)
    ensures Read(ParseValue(c, o, room), Array(items), e)
  {
    NotLiteral(c, o);
  }

  lemma ObjectFromList(c: bytes, o: nat, room: nat, ms: seq<Member>, e: nat)
    requires o < |c| && c[o] == LBRACE && room > 0
    requires Read(ParseBracketed(c, o, MemberParser(c, room - 1), RBRACE), ms, e)
    ensures Read(ParseValue(c, o, room), Object(ms), e)
  {
    NotLiteral(c, o);
  }

  lemma MemberFromParts(
      c: bytes, k: nat, n: nat, w: nat, room: nat, key: Option<Parsed<bytes>>, v: Option<Parsed<Json>>)
    returns (r: Option<Parsed<Member>>)
    requires key == ParseString(c, k) && key.Some? && key.value.next == n
    requires n < w && n < |c| && c[n] == COLON && Blank(c, n + 1, w) && w < |c| && c[w] > 32
    requires v == ParseValue(c, w, room) && v.Some?
    ensures r == ParseMember(c, k, room)
    ensures Read(r, Member(key.value.value, v.value.value), v.value.next)
  {
    hide ParseString, ParseValue, Blank;
    SkipBlank(c, n, n);
    SkipBlank(c, n + 1, w);
    r := ParseMember(c, k, room);
  }

  lemma PrintedSeparators(format: bool)
    ensures Separators(ItemSeparator(format), []) && Separators(MemberSeparator(format), NewLine(format))
  {
  }

  lemma ArrayLayout(c: bytes, o: nat, items: seq<Json>, format: bool, depth: nat) returns (z: nat)
    requires TextAt(c, o, Print(Array(items), format, depth))
    ensures o < |c| && c[o] == LBRACKET
    ensures TextAt(c, o + 1, Joined(ItemTexts(items, format, depth + 1), 0, ItemSeparator(format), []))
    ensures z == o + 1 + |Joined(ItemTexts(items, format, depth + 1), 0, ItemSeparator(format), [])|
    ensures z < |c| && c[z] == RBRACKET && z + 1 == o + |Print(Array(items), format, depth)|
  {
    PrintOfArray(items, format, depth);
    var open: bytes, close: bytes := [LBRACKET], [RBRACKET];
    var body := Joined(ItemTexts(items, format, depth + 1), 0, ItemSeparator(format), []);
    z := o + 1 + |body|;
    TextAtSplit(c, o, open + body, close);
    TextAtSplit(c, o, open, body);
    TextAtByte(c, o, open, 0);
    TextAtByte(c, z, close, 0);
  }

  lemma ObjectLayout(c: bytes, o: nat, ms: seq<Member>, format: bool, depth: nat) returns (q: nat, z: nat)
    requires TextAt(c, o, Print(Object(ms), format, depth))
    ensures o < |c| && c[o] == LBRACE && Blank(c, o + 1, q)
    ensures TextAt(c, q, Joined(MemberTexts(ms, format, depth + 1), 0, MemberSeparator(format), NewLine(format)))
    ensures Blank(c, q + |Joined(MemberTexts(ms, format, depth + 1), 0, MemberSeparator(format), NewLine(format))|, z)
    ensures z < |c| && c[z] == RBRACE && z + 1 == o + |Print(Object(ms), format, depth)|
  {
    PrintOfObject(ms, format, depth);
    var open: bytes, close: bytes := [LBRACE], [RBRACE];
    var nl, indent := NewLine(format), Indent(format, depth);
    var body := Joined(MemberTexts(ms, format, depth + 1), 0, MemberSeparator(format), nl);
    q := o + 1 + |nl|;
    z := q + |body| + |indent|;
    TextAtSplit(c, o, open + nl + body + indent, close);
    TextAtSplit(c, o, open + nl + body, indent);
    TextAtSplit(c, o, open + nl, body);
    TextAtSplit(c, o, open, nl);
    TextAtByte(c, o, open, 0);
    TextAtByte(c, z, close, 0);
    BlankText(c, o + 1, nl);
    BlankText(c, q + |body|, indent);
  }

  /** Where the key's end and the value of one member lie. */
  lemma MemberLayout(c: bytes, q: nat, m: Member, format: bool, depth: nat) returns (k: nat, n: nat, w: nat)
    requires TextAt(c, q, MemberText(m, format, depth))
    ensures k == q + |Indent(format, depth)| && TextAt(c, k, Quoted(m.key)) && n == k + |Quoted(m.key)|
    ensures n < w && n < |c| && c[n] == COLON && Blank(c, n + 1, w)
    ensures TextAt(c, w, Print(m.value, format, depth))
    ensures w + |Print(m.value, format, depth)| == q + |MemberText(m, format, depth)|
  {
    var indent, key, colon, v := Indent(format, depth), Quoted(m.key), ColonText(format), Print(m.value, format, depth);
    k, n := q + |indent|, q + |indent| + |key|;
    w := n + |colon|;
    TextAtSplit(c, q, indent + key + colon, v);
    TextAtSplit(c, q, indent + key, colon);
    TextAtSplit(c, q, indent, key);
    TextAtByte(c, n, colon, 0);
    if format { TextAtByte(c, n, colon, 1); }
  }

  // ---------------------------------------------------------------- values

  /** The value printed at `o` is read back whole, whatever follows it. */
  lemma {:induction false} PrintedReadsBack(c: bytes, o: nat, v: Json, format: bool, depth: nat, room: nat)
    requires Printable(v) && NestsWithin(v, room)
    requires TextAt(c, o, Print(v, format, depth)) && EndsNumber(c, o + |Print(v, format, depth)|)
    ensures Read(ParseValue(c, o, room), v, o + |Print(v, format, depth)|)
    decreases v, 4
  {
    if v.Array? {
      ArrayReadsBack(c, o, v.items, format, depth, room);
    } else if v.Object? {
      ObjectReadsBack(c, o, v.members, format, depth, room);
    } else {
      ScalarReadsBack(c, o, v, format, depth, room);
    }
  }

  lemma {:induction false} ArrayReadsBack(c: bytes, o: nat, items: seq<Json>, format: bool, depth: nat, room: nat)
    requires Printable(Array(items)) && NestsWithin(Array(items), room)
    requires TextAt(c, o, Print(Array(items), format, depth))
    ensures Read(ParseValue(c, o, room), Array(items), o + |Print(Array(items), format, depth)|)
    decreases items, 3
  {
    var z := ArrayLayout(c, o, items, format, depth);
    if items == [] {
      EmptyBracketed(c, o, z, ValueParser(c, room - 1), RBRACKET);
    } else {
      ItemListReadsBack(c, o, z, items, format, depth + 1, room - 1);
    }
    ArrayFromList(c, o, room, items, z + 1);
  }

  lemma {:induction false} ItemListReadsBack(
      c: bytes, o: nat, z: nat, items: seq<Json>, format: bool, depth: nat, room: nat)
    requires items != [] && forall k :: 0 <= k < |items| ==> Printable(items[k]) && NestsWithin(items[k], room)
    requires TextAt(c, o + 1, Joined(ItemTexts(items, format, depth), 0, ItemSeparator(format), []))
    requires z == o + 1 + |Joined(ItemTexts(items, format, depth), 0, ItemSeparator(format), [])| < |c|
    requires c[z] == RBRACKET
    ensures Read(ParseBracketed(c, o, ValueParser(c, room), RBRACKET), items, z + 1)
    decreases items, 2
  {
    var texts := ItemTexts(items, format, depth);
    PrintedSeparators(format);
    ItemsReadBack(c, o + 1, z, items, format, depth, room);
    BracketedReadsBack(c, o, o + 1, z, texts, ItemSeparator(format), [], 0, RBRACKET, items, ValueParser(c, room));
  }

  lemma {:induction false} ItemReadsBack(
      c: bytes, q: nat, z: nat, items: seq<Json>, k: nat, format: bool, depth: nat, room: nat)
    requires k < |items| && Printable(items[k]) && NestsWithin(items[k], room)
    requires TextAt(c, q, Joined(ItemTexts(items, format, depth), 0, ItemSeparator(format), []))
    requires z == q + |Joined(ItemTexts(items, format, depth), 0, ItemSeparator(format), [])| < |c|
    requires c[z] == RBRACKET
    ensures var t := Print(items[k], format, depth); Led(t, 0) && t[0] != RBRACKET
    ensures var s := SpanOf(q, ItemTexts(items, format, depth), k, |ItemSeparator(format)|, 0, z);
            Read(ParseValue(c, s.start, room), items[k], s.end)
    decreases items, 0
  {
    var texts, sep := ItemTexts(items, format, depth), ItemSeparator(format);
    PrintedSeparators(format);
    ItemTextLed(items[k], format, depth);
    var s := SpanFacts(c, q, z, texts, k, sep, [], 0);
    PrintedReadsBack(c, s.start, items[k], format, depth, room);
  }

  lemma {:induction false} ItemsReadBack(
      c: bytes, q: nat, z: nat, items: seq<Json>, format: bool, depth: nat, room: nat)
    requires forall k :: 0 <= k < |items| ==> Printable(items[k]) && NestsWithin(items[k], room)
    requires TextAt(c, q, Joined(ItemTexts(items, format, depth), 0, ItemSeparator(format), []))
    requires z == q + |Joined(ItemTexts(items, format, depth), 0, ItemSeparator(format), [])| < |c|
    requires c[z] == RBRACKET
    ensures var texts := ItemTexts(items, format, depth);
            && (forall k :: 0 <= k < |items| ==> Led(texts[k], 0) && texts[k][0] != RBRACKET)
            && ItemsAt(ValueParser(c, room), SpansOf(q, texts, |ItemSeparator(format)|, 0, z), items)
    decreases items, 1
  {
    forall k | 0 <= k < |items|
      ensures var t := Print(items[k], format, depth); Led(t, 0) && t[0] != RBRACKET
      ensures var s := SpanOf(q, ItemTexts(items, format, depth), k, |ItemSeparator(format)|, 0, z);
              Read(ParseValue(c, s.start, room), items[k], s.end)
    {
      ItemReadsBack(c, q, z, items, k, format, depth, room);
    }
  }

  lemma {:induction false} MemberReadsBack(
      c: bytes, q: nat, k: nat, m: Member, format: bool, depth: nat, room: nat, e: nat)
    requires NUL !in m.key && Printable(m.value) && NestsWithin(m.value, room)
    requires TextAt(c, q, MemberText(m, format, depth)) && e == q + |MemberText(m, format, depth)|
    requires k == q + |Indent(format, depth)| && EndsNumber(c, e)
    ensures Read(ParseMember(c, k, room), m, e)
    decreases m.value, 5
  {
    hide ParseMember, ParseValue, ParseString, Skip, AgreesFrom;
    var k', n, w := MemberLayout(c, q, m, format, depth);
    PrintStartsVisible(m.value, format, depth);
    TextAtByte(c, w, Print(m.value, format, depth), 0);
    QuotedReadsBack(c, k, m.key);
    PrintedReadsBack(c, w, m.value, format, depth, room);
    var key, v := ParseString(c, k), ParseValue(c, w, room);
    var r := MemberFromParts(c, k, n, w, room, key, v);
    assert Member(m.key, m.value) == m;
  }

  lemma {:induction false} ObjectReadsBack(c: bytes, o: nat, ms: seq<Member>, format: bool, depth: nat, room: nat)
    requires Printable(Object(ms)) && NestsWithin(Object(ms), room)
    requires TextAt(c, o, Print(Object(ms), format, depth))
    ensures Read(ParseValue(c, o, room), Object(ms), o + |Print(Object(ms), format, depth)|)
    decreases ms, 3
  {
    var q, z := ObjectLayout(c, o, ms, format, depth);
    if ms == [] {
      BlankJoin(c, o + 1, q, z);
      EmptyBracketed(c, o, z, MemberParser(c, room - 1), RBRACE);
    } else {
      MemberListReadsBack(c, o, q, z, ms, format, depth + 1, room - 1);
    }
    ObjectFromList(c, o, room, ms, z + 1);
  }

  lemma {:induction false} MemberListReadsBack(
      c: bytes, o: nat, q: nat, z: nat, ms: seq<Member>, format: bool, depth: nat, room: nat)
    requires ms != [] && o < |c| && Blank(c, o + 1, q)
    requires forall k :: 0 <= k < |ms| ==> NUL !in ms[k].key && Printable(ms[k].value) && NestsWithin(ms[k].value, room)
    requires TextAt(c, q, Joined(MemberTexts(ms, format, depth), 0, MemberSeparator(format), NewLine(format)))
    requires Blank(c, q + |Joined(MemberTexts(ms, format, depth), 0, MemberSeparator(format), NewLine(format))|, z)
    requires z < |c| && c[z] == RBRACE
    ensures Read(ParseBracketed(c, o, MemberParser(c, room), RBRACE), ms, z + 1)
    decreases ms, 2
  {
    var texts, lead := MemberTexts(ms, format, depth), |Indent(format, depth)|;
    PrintedSeparators(format);
    MembersReadBack(c, q, z, ms, format, depth, room);
    BracketedReadsBack(
      c, o, q, z, texts, MemberSeparator(format), NewLine(format), lead, RBRACE, ms, MemberParser(c, room));
  }

  /** The member printed as text `k` of those at `q` reads back from where it lies. */
  lemma {:induction false} OneMemberReadsBack(
      c: bytes, q: nat, z: nat, texts: seq<bytes>, k: nat, m: Member, format: bool, depth: nat, room: nat)
    returns (s: Span)
    requires NUL !in m.key && Printable(m.value) && NestsWithin(m.value, room)
    requires k < |texts| && texts[k] == MemberText(m, format, depth)
    requires TextAt(c, q, Joined(texts, 0, MemberSeparator(format), NewLine(format)))
    requires Blank(c, q + |Joined(texts, 0, MemberSeparator(format), NewLine(format))|, z)
    requires z < |c| && c[z] == RBRACE
    ensures s == SpanOf(q, texts, k, |MemberSeparator(format)|, |Indent(format, depth)|, z)
    ensures Read(ParseMember(c, s.start, room), m, s.end)
    decreases m.value, 6
  {
    PrintedSeparators(format);
    MemberTextLed(m, format, depth);
    s := SpanFacts(c, q, z, texts, k, MemberSeparator(format), NewLine(format), |Indent(format, depth)|);
    MemberReadsBack(c, s.start - |Indent(format, depth)|, s.start, m, format, depth, room, s.end);
  }

  lemma {:induction false} MembersReadBack(
      c: bytes, q: nat, z: nat, ms: seq<Member>, format: bool, depth: nat, room: nat)
    requires forall k :: 0 <= k < |ms| ==> NUL !in ms[k].key && Printable(ms[k].value) && NestsWithin(ms[k].value, room)
    requires TextAt(c, q, Joined(MemberTexts(ms, format, depth), 0, MemberSeparator(format), NewLine(format)))
    requires Blank(c, q + |Joined(MemberTexts(ms, format, depth), 0, MemberSeparator(format), NewLine(format))|, z)
    requires z < |c| && c[z] == RBRACE
    ensures var texts, lead := MemberTexts(ms, format, depth), |Indent(format, depth)|;
            && (forall k :: 0 <= k < |ms| ==> Led(texts[k], lead) && texts[k][lead] != RBRACE)
            && ItemsAt(MemberParser(c, room), SpansOf(q, texts, |MemberSeparator(format)|, lead, z), ms)
    decreases ms, 1
  {
    forall k | 0 <= k < |ms|
      ensures var t, lead := MemberText(ms[k], format, depth), |Indent(format, depth)|;
              Led(t, lead) && t[lead] != RBRACE
      ensures var s := SpanOf(
                         q, MemberTexts(ms, format, depth), k, |MemberSeparator(format)|, |Indent(format, depth)|, z);
              Read(ParseMember(c, s.start, room), ms[k], s.end)
    {
      MemberTextLed(ms[k], format, depth);
      var s := OneMemberReadsBack(c, q, z, MemberTexts(ms, format, depth), k, ms[k], format, depth, room);
    }
  }

  // ---------------------------------------------------------------- documents

  lemma DocumentReadsBack(c: bytes, v: Json, format: bool)
    requires Printable(v) && NestsWithin(v, NESTING_LIMIT)
    requires TextAt(c, 0, Print(v, format, 0)) && EndsNumber(c, |Print(v, format, 0)|)
    ensures ParseWithLength(c) == Some(Parsed(v, |Print(v, format, 0)|))
  {
    PrintStartsVisible(v, format, 0);
    TextAtByte(c, 0, Print(v, format, 0), 0);
    NotText(c, 0, BOM);
    SkipBlank(c, 0, 0);
    PrintedReadsBack(c, 0, v, format, 0, NESTING_LIMIT);
  }

  /** Parsing the printed text, in either style: the same tree, and the whole text consumed. */
  lemma ParseUndoesPrint(v: Json, format: bool)
    requires Printable(v) && NestsWithin(v, NESTING_LIMIT)
    ensures Parse(Print(v, format, 0)) == Some(Parsed(v, |Print(v, format, 0)|))
    ensures ParseWithLength(Print(v, format, 0)) == Some(Parsed(v, |Print(v, format, 0)|))
  {
    var t := Print(v, format, 0);
    TextAtSlice(t, 0, t);
    TextAtSlice(t + [NUL], 0, t);
    DocumentReadsBack(t, v, format);
    DocumentReadsBack(t + [NUL], v, format);
  }

  /** Printing is injective: distinct trees never share a text, even across the two styles. */
  lemma PrintInjective(v: Json, w: Json, f: bool, g: bool)
    requires Printable(v) && NestsWithin(v, NESTING_LIMIT) && Printable(w) && NestsWithin(w, NESTING_LIMIT)
    requires Print(v, f, 0) == Print(w, g, 0)
    ensures v == w
  {
    ParseUndoesPrint(v, f);
    ParseUndoesPrint(w, g);
  }
}
