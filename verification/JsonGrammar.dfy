/** What the parser accepts and builds, as functions of the text and an offset into it. */
module JsonGrammar {
  import opened Bytes
  import Decimal
  import opened JsonText
  import Utf

  const NESTING_LIMIT: nat := 1000
  const NUMBER_LIMIT: nat := 63

  datatype Parsed<+T> = Parsed(value: T, next: nat)

  // ---------------------------------------------------------------- whitespace

  /** The first byte above 32 at or after `o`, or the end. */
  function Visible(c: bytes, o: nat): (r: nat)
    requires o <= |c|
    ensures o <= r <= |c|
    decreases |c| - o
  {
    if o < |c| && c[o] <= 32 then Visible(c, o + 1) else o
  }

  /** Skipping never leaves the text when it starts inside it: at the end it steps back one byte. */
  function Skip(c: bytes, o: nat): (r: nat)
    requires o <= |c|
    ensures o <= r <= |c|
    ensures o < |c| ==> r < |c|
  {
    if o == |c| then o
    else if Visible(c, o) == |c| then |c| - 1
    else Visible(c, o)
  }

  // ---------------------------------------------------------------- strings

  /** Index of the quote that closes a string whose body starts at `i`. */
  function ClosingQuote(c: bytes, i: nat): (r: Option<nat>)
    ensures r.Some? ==> i <= r.value < |c| && c[r.value] == QUOTE
    decreases |c| - i
  {
    if i >= |c| then None
    else if c[i] == QUOTE then Some(i)
    else if c[i] == BACKSLASH then
      if i + 1 >= |c| then None else ClosingQuote(c, i + 2)
    else ClosingQuote(c, i + 1)
  }

  function ReadEscape(letter: byte): Option<byte> {
    if letter == 0x62 then Some(8)
    else if letter == 0x66 then Some(12)
    else if letter == 0x6E then Some(LF)
    else if letter == 0x72 then Some(CR)
    else if letter == 0x74 then Some(TAB)
    else if letter == QUOTE || letter == BACKSLASH || letter == SLASH then Some(letter)
    else None
  }

  function Prepend(front: bytes, rest: Option<bytes>): Option<bytes> {
    if rest.Some? then Some(front + rest.value) else None
  }

  lemma PrependTwice(a: bytes, b: bytes, rest: Option<bytes>)
    ensures Prepend(a, Prepend(b, rest)) == Prepend(a + b, rest)
    ensures Prepend([], rest) == rest
  {
    if rest.Some? {
      assert a + (b + rest.value) == (a + b) + rest.value;
      assert [] + rest.value == rest.value;
    }
  }

  /** The bytes the second pass writes for the body `c[i..e]`; `c[e]` is the closing quote. */
  function Unescape(c: bytes, i: nat, e: nat): Option<bytes>
    requires i <= e + 1 <= |c|
    decreases e + 1 - i
  {
    if i >= e then Some([])
    else if c[i] != BACKSLASH then Prepend([c[i]], Unescape(c, i + 1, e))
    else if c[i + 1] == Utf.LETTER_U then
      var literal := Utf.LiteralAt(c, i, e);
      if literal.None? then None
      else Prepend(Utf.Encode(literal.value.codePoint), Unescape(c, i + literal.value.length, e))
    else
      var b := ReadEscape(c[i + 1]);
      if b.None? then None else Prepend([b.value], Unescape(c, i + 2, e))
  }

  /** A string literal at `o`, as the C string its value is. */
  function ParseString(c: bytes, o: nat): (r: Option<Parsed<bytes>>)
    ensures r.Some? ==> o < r.value.next <= |c|
  {
    if o >= |c| || c[o] != QUOTE then None
    else
      var e := ClosingQuote(c, o + 1);
      if e.None? then None
      else
        var body := Unescape(c, o + 1, e.value);
        if body.None? then None else Some(Parsed(CString(body.value), e.value + 1))
  }

  // ---------------------------------------------------------------- numbers

  predicate IsExponent(b: byte) {
    b == 0x65 || b == 0x45
  }

  predicate IsSign(b: byte) {
    b == PLUS || b == MINUS
  }

  predicate IsNumberByte(b: byte) {
    IsDigit(b) || IsSign(b) || IsExponent(b) || b == DOT
  }

  /** How many of the bytes at `o` go to the number buffer, `n` of them being there already. */
  function NumberRun(c: bytes, o: nat, n: nat): (r: nat)
    requires n <= NUMBER_LIMIT && o + n <= |c|
    ensures n <= r <= NUMBER_LIMIT && o + r <= |c|
    decreases NUMBER_LIMIT - n
  {
    if n < NUMBER_LIMIT && o + n < |c| && IsNumberByte(c[o + n]) then NumberRun(c, o, n + 1) else n
  }

  function SignEnd(c: bytes, i: nat, e: nat): (r: nat)
    requires i <= e <= |c|
    ensures i <= r <= e
  {
    if i < e && IsSign(c[i]) then i + 1 else i
  }

  /** Where strtod stops in `c[o..e]`: sign, digits with an optional point, optional exponent; `o` if no digits. */
  function StrtodEnd(c: bytes, o: nat, e: nat): (r: nat)
    requires o <= e <= |c|
    ensures o <= r <= e
  {
    var i := SignEnd(c, o, e);
    var j := Decimal.DigitsEnd(c, i, e);
    var k := if j < e && c[j] == DOT then Decimal.DigitsEnd(c, j + 1, e) else j;
    if j == i && k <= j + 1 then o
    else if k < e && IsExponent(c[k]) then
      var m := SignEnd(c, k + 1, e);
      var q := Decimal.DigitsEnd(c, m, e);
      if q > m then q else k
    else k
  }

  /** A decimal number: its digits, with the sign, and the power of ten that scales them. */
  datatype Scaled = Scaled(digits: int, scale: int)

  /** What a lexeme says: sign, digits with an optional point, optional exponent. */
  function ScaledOf(t: bytes): Scaled {
    var e := |t|;
    var i := SignEnd(t, 0, e);
    var j := Decimal.DigitsEnd(t, i, e);
    var h := if j < e && t[j] == DOT then j + 1 else j;
    var k := if h > j then Decimal.DigitsEnd(t, h, e) else j;
    var m := if k < e then SignEnd(t, k + 1, e) else e;
    var q := Decimal.DigitsEnd(t, m, e);
    Decimal.DigitsEndSpans(t, i, e);
    Decimal.DigitsEndSpans(t, h, e);
    Decimal.DigitsEndSpans(t, m, e);
    var digits := Decimal.Value(t, i, j) * Decimal.Pow10(k - h) + Decimal.Value(t, h, k);
    var exponent: int := Decimal.Value(t, m, q);
    Scaled(if e > 0 && t[0] == MINUS then -digits else digits,
           (if k + 1 < e && t[k + 1] == MINUS then -exponent else exponent) - (k - h))
  }

  /** The whole number `s` is, if it is one. */
  function Whole(s: Scaled): Option<int> {
    if s.scale >= 0 then Some(s.digits * Decimal.Pow10(s.scale))
    else if s.digits % Decimal.Pow10(-s.scale) == 0 then Some(s.digits / Decimal.Pow10(-s.scale))
    else None
  }

  /** `n` is the decimal number `s`. */
  predicate Equals(s: Scaled, n: int) {
    if s.scale >= 0 then n == s.digits * Decimal.Pow10(s.scale) else n * Decimal.Pow10(-s.scale) == s.digits
  }

  lemma {:induction false} MultipleGrows(k: nat, d: nat)
    ensures k > 0 ==> k * d >= d
  {
    if k > 1 { MultipleGrows(k - 1, d); }
  }

  lemma SmallMultiple(k: int, d: nat, r: nat)
    requires k * d == r < d
    ensures k == 0
  {
    if k > 0 {
      MultipleGrows(k, d);
    } else if k < 0 {
      MultipleGrows(-k, d);
    }
  }

  /** A multiple divides without remainder, to its factor. */
  lemma DivisionIs(x: int, d: nat, n: int)
    requires d > 0
    ensures n * d == x <==> x % d == 0 && x / d == n
  {
    var q, r := x / d, x % d;
    assert x == q * d + r;
    if n * d == x {
      assert (n - q) * d == r;
      SmallMultiple(n - q, d, r);
    }
  }

  lemma WholeIff(s: Scaled, n: int)
    ensures Whole(s) == Some(n) <==> Equals(s, n)
  {
    if s.scale < 0 { DivisionIs(s.digits, Decimal.Pow10(-s.scale), n); }
  }

  /** The number of a lexeme: one that is a 32-bit integer, or the text of any other. */
  function NumberOf(t: bytes): Json {
    var n := Whole(ScaledOf(t));
    if n.Some? && INT_MIN <= n.value <= INT_MAX then Number(n.value) else Real(t)
  }

  /** However it is written, `12`, `1.20e1` or `120e-1`, a lexeme is taken for the 32-bit integer it denotes. */
  lemma NumberOfIff(t: bytes, n: int)
    ensures NumberOf(t) == Number(n) <==> INT_MIN <= n <= INT_MAX && Equals(ScaledOf(t), n)
  {
    WholeIff(ScaledOf(t), n);
  }

  /** `1e2` is 100, `1.0` is 1, and `1.5` is kept as it is. */
  lemma ExponentsAndPoints()
    ensures NumberOf([0x31, 0x65, 0x32]) == Number(100) && NumberOf([0x31, DOT, 0x30]) == Number(1)
    ensures NumberOf([0x31, DOT, 0x35]) == Real([0x31, DOT, 0x35])
  {
    var a, b, c: bytes := [0x31, 0x65, 0x32], [0x31, DOT, 0x30], [0x31, DOT, 0x35];
    assert Decimal.Value(a, 0, 1) == 1 && Decimal.Value(a, 2, 3) == 2 && Decimal.Value(a, 1, 1) == 0;
    assert ScaledOf(a) == Scaled(1, 2);
    assert Decimal.Pow10(1) == 10 && Decimal.Pow10(2) == 100;
    NumberOfIff(a, 100);
    assert Decimal.Value(b, 0, 1) == 1 && Decimal.Value(b, 2, 3) == 0 && ScaledOf(b) == Scaled(10, -1);
    NumberOfIff(b, 1);
    assert Decimal.Value(c, 0, 1) == 1 && Decimal.Value(c, 2, 3) == 5 && ScaledOf(c) == Scaled(15, -1);
  }

  function ParseNumber(c: bytes, o: nat): (r: Option<Parsed<Json>>)
    requires o <= |c|
    ensures r.Some? ==> o < r.value.next <= |c|
  {
    var e := StrtodEnd(c, o, o + NumberRun(c, o, 0));
    if e == o then None else Some(Parsed(NumberOf(c[o..e]), e))
  }

  /** A number from its parts: how many bytes are looked at, where strtod stops, what it makes of them. */
  lemma ParseNumberIs(c: bytes, o: nat, n: nat, e: nat, v: Json)
    requires o <= |c| && n == NumberRun(c, o, 0) && e == StrtodEnd(c, o, o + n)
    requires e > o ==> v == NumberOf(c[o..e])
    ensures ParseNumber(c, o) == if e == o then None else Some(Parsed(v, e))
  {
    hide NumberRun, StrtodEnd, NumberOf;
  }

  // ---------------------------------------------------------------- lists

  /** A reader that, where it succeeds, moves on and stays inside the text. */
  ghost predicate Advancing<T(!new)>(c: bytes, item: nat -> Option<Parsed<T>>) {
    forall q: nat :: item(q).Some? ==> q < item(q).value.next <= |c|
  }

  /** Comma-separated items from `p` on, through `close`, with whitespace allowed around each. */
  function ParseList<T(!new)>(c: bytes, p: nat, item: nat -> Option<Parsed<T>>, close: byte)
    : (r: Option<Parsed<seq<T>>>)
    requires p <= |c| && Advancing(c, item)
    ensures r.Some? ==> p < r.value.next <= |c|
    decreases |c| - p
  {
    var first := item(Skip(c, p));
    if first.None? then None
    else
      var q := Skip(c, first.value.next);
      if q >= |c| then None
      else if c[q] == COMMA then Consed(first.value.value, ParseList(c, q + 1, item, close))
      else if c[q] == close then Some(Parsed([first.value.value], q + 1))
      else None
  }

  function Consed<T>(v: T, rest: Option<Parsed<seq<T>>>): Option<Parsed<seq<T>>> {
    if rest.Some? then Some(Parsed([v] + rest.value.value, rest.value.next)) else None
  }

  /** A list from its first item, the byte behind it at `q`, and the items behind that. */
  function Turn<T>(
      c: bytes, q: nat, close: byte, first: Option<Parsed<T>>, rest: Option<Parsed<seq<T>>>): Option<Parsed<seq<T>>>
  {
    if first.None? || q >= |c| then None
    else if c[q] == COMMA then Consed(first.value.value, rest)
    else if c[q] == close then Some(Parsed([first.value.value], q + 1))
    else None
  }

  lemma ListIsTurn<T(!new)>(
      c: bytes, p: nat, item: nat -> Option<Parsed<T>>, close: byte, q: nat, rest: Option<Parsed<seq<T>>>)
    requires p <= |c| && Advancing(c, item)
    requires item(Skip(c, p)).Some? ==> q == Skip(c, item(Skip(c, p)).value.next)
    requires item(Skip(c, p)).Some? && q < |c| && c[q] == COMMA ==> rest == ParseList(c, q + 1, item, close)
    ensures ParseList(c, p, item, close) == Turn(c, q, close, item(Skip(c, p)), rest)
  {
  }

  /** A bracketed list whose opening byte is at `o`. */
  function ParseBracketed<T(!new)>(c: bytes, o: nat, item: nat -> Option<Parsed<T>>, close: byte)
    : (r: Option<Parsed<seq<T>>>)
    requires o < |c| && Advancing(c, item)
    ensures r.Some? ==> o < r.value.next <= |c|
  {
    var p := Skip(c, o + 1);
    if p >= |c| then None
    else if c[p] == close then Some(Parsed([], p + 1))
    else ParseList(c, p, item, close)
  }

  // ---------------------------------------------------------------- values

  /** The value at `o`; `room` is how many more containers may still be opened. */
  function ParseValue(c: bytes, o: nat, room: nat): (r: Option<Parsed<Json>>)
    ensures r.Some? ==> o < r.value.next <= |c|
    decreases room, 1
  {
    if o >= |c| then None
    else if TextAt(c, o, NULL_TEXT) then Some(Parsed(Null, o + 4))
    else if TextAt(c, o, FALSE_TEXT) then Some(Parsed(False, o + 5))
    else if TextAt(c, o, TRUE_TEXT) then Some(Parsed(True, o + 4))
    else if c[o] == QUOTE then
      var s := ParseString(c, o);
      if s.None? then None else Some(Parsed(String(s.value.value), s.value.next))
    else if c[o] == MINUS || IsDigit(c[o]) then ParseNumber(c, o)
    else if c[o] == LBRACKET then ParseArray(c, o, room)
    else if c[o] == LBRACE then ParseObject(c, o, room)
    else None
  }

  function ParseArray(c: bytes, o: nat, room: nat): (r: Option<Parsed<Json>>)
    requires o < |c|
    ensures r.Some? ==> o < r.value.next <= |c|
    decreases room, 0
  {
    if room == 0 then None
    else
      var items := ParseBracketed(c, o, ValueParser(c, room - 1), RBRACKET);
      if items.None? then None else Some(Parsed(Array(items.value.value), items.value.next))
  }

  function ParseObject(c: bytes, o: nat, room: nat): (r: Option<Parsed<Json>>)
    requires o < |c|
    ensures r.Some? ==> o < r.value.next <= |c|
    decreases room, 0
  {
    if room == 0 then None
    else
      var ms := ParseBracketed(c, o, MemberParser(c, room - 1), RBRACE);
      if ms.None? then None else Some(Parsed(Object(ms.value.value), ms.value.next))
  }

  function ValueParser(c: bytes, room: nat): (item: nat -> Option<Parsed<Json>>)
    ensures Advancing(c, item)
    decreases room, 2
  {
    (q: nat) => ParseValue(c, q, room)
  }

  /** One `key : value` pair whose key starts at `k`. */
  function ParseMember(c: bytes, k: nat, room: nat): (r: Option<Parsed<Member>>)
    ensures r.Some? ==> k < r.value.next <= |c|
    decreases room, 2
  {
    var key := ParseString(c, k);
    if key.None? then None
    else
      var q := Skip(c, key.value.next);
      if q >= |c| || c[q] != COLON then None
      else
        var v := ParseValue(c, Skip(c, q + 1), room);
        if v.None? then None else Some(Parsed(Member(key.value.value, v.value.value), v.value.next))
  }

  function MemberParser(c: bytes, room: nat): (item: nat -> Option<Parsed<Member>>)
    ensures Advancing(c, item)
    decreases room, 3
  {
    (q: nat) => ParseMember(c, q, room)
  }

  /** The elements of an array from `p` on, through the closing bracket. */
  function ParseElements(c: bytes, p: nat, room: nat): (r: Option<Parsed<seq<Json>>>)
    requires p <= |c|
    ensures r.Some? ==> p < r.value.next <= |c|
  {
    ParseList(c, p, ValueParser(c, room), RBRACKET)
  }

  /** The members of an object from `p` on, through the closing brace. */
  function ParseMembers(c: bytes, p: nat, room: nat): (r: Option<Parsed<seq<Member>>>)
    requires p <= |c|
    ensures r.Some? ==> p < r.value.next <= |c|
  {
    ParseList(c, p, MemberParser(c, room), RBRACE)
  }

  // ---------------------------------------------------------------- documents

  const BOM: bytes := [0xEF, 0xBB, 0xBF]

  function BomLength(c: bytes): (r: nat)
    ensures r <= |c|
  {
    if 4 < |c| && TextAt(c, 0, BOM) then 3 else 0
  }

  /** `cJSON_ParseWithLength`: what follows the value is not looked at. */
  function ParseWithLength(c: bytes): Option<Parsed<Json>> {
    if |c| == 0 then None else ParseValue(c, Skip(c, BomLength(c)), NESTING_LIMIT)
  }

  /** `cJSON_Parse` of the C string `text`: its terminating NUL is part of the buffer. */
  function Parse(text: bytes): Option<Parsed<Json>> {
    ParseWithLength(text + [NUL])
  }

  // ---------------------------------------------------------------- escapes that are not hexadecimal

  /** Whatever follows an escape without four hexadecimal digits is lost: the escape reads as NUL. */
  lemma BadHexEndsString(c: bytes, i: nat, e: nat)
    requires i + 6 <= e < |c| && c[i] == BACKSLASH && c[i + 1] == Utf.LETTER_U && Utf.HexValue(c, i + 2, 4).None?
    ensures Unescape(c, i, e).Some? <==> Unescape(c, i + 6, e).Some?
    ensures Unescape(c, i, e).Some? ==> CString(Unescape(c, i, e).value) == []
  {
    Utf.BadHexIsNul(c, i, e);
    assert Unescape(c, i, e) == Prepend([NUL], Unescape(c, i + 6, e));
  }

  /** The text `"a\uZZZZb"` reads as the string `a`. */
  lemma BadHexReadsAs()
    ensures var z: byte := 0x5A; var t: bytes := [QUOTE, 0x61, BACKSLASH, Utf.LETTER_U, z, z, z, z, 0x62, QUOTE];
            Parse(t) == Some(Parsed(String([0x61]), 10))
  {
    var z: byte := 0x5A;
    var c: bytes := [QUOTE, 0x61, BACKSLASH, Utf.LETTER_U, z, z, z, z, 0x62, QUOTE] + [NUL];
    assert Skip(c, 0) == 0;
    assert ClosingQuote(c, 9) == Some(9) && ClosingQuote(c, 8) == Some(9) && ClosingQuote(c, 7) == Some(9);
    assert ClosingQuote(c, 6) == Some(9) && ClosingQuote(c, 4) == Some(9) && ClosingQuote(c, 1) == Some(9);
    assert Unescape(c, 9, 9) == Some([]) && Unescape(c, 8, 9).Some?;
    assert Utf.HexValue(c, 4, 1).None? && Utf.HexValue(c, 4, 2).None? && Utf.HexValue(c, 4, 3).None?;
    BadHexEndsString(c, 2, 9);
    var rest := Unescape(c, 2, 9);
    assert Unescape(c, 1, 9) == Some([0x61] + rest.value);
    assert ([0x61] + rest.value)[1..] == rest.value;
    assert CString([0x61] + rest.value) == [0x61];
  }
}
