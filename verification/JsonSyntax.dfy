/** The JSON texts the parser takes, those of RFC 8259 among them, as syntax trees with their text and value. */
module JsonSyntax {
  import opened Bytes
  import Decimal
  import opened JsonGrammar
  import R = JsonRoundTrip
  import opened JsonText
  import Utf

  // ---------------------------------------------------------------- strings (section 7)

  /**
   * A character of a string as it is written: itself, a two-byte escape, a `\u` escape, a surrogate pair of them, or
   * a lone backslash that ends the string and takes the closing quote for its letter.
   */
  datatype Char = Plain(b: byte) | Short(letter: byte) | Unit(hex: bytes) | Pair(high: bytes, low: bytes) | Cut

  predicate IsHex(hex: bytes) {
    |hex| == 4 && forall k :: 0 <= k < 4 ==> Utf.HexDigit(hex[k]).Some?
  }

  /** The code unit written by four hexadecimal digits; any other four bytes are taken for 0. */
  function UnitOf(hex: bytes): (r: nat)
    requires |hex| == 4
    ensures r < 0x10000
  {
    if !IsHex(hex) then 0
    else
      var d := seq(4, k requires 0 <= k < 4 => Utf.HexDigit(hex[k]).value);
      d[0] * 0x1000 + d[1] * 0x100 + d[2] * 0x10 + d[3]
  }

  predicate IsShort(letter: byte) {
    letter in {QUOTE, BACKSLASH, SLASH, 0x62, 0x66, 0x6E, 0x72, 0x74}
  }

  /** Surrogates come in pairs. The RFC's grammar has lone ones too, which are no characters and refused. */
  predicate CharOk(ch: Char) {
    match ch
    case Plain(b) => b != BACKSLASH
    case Short(letter) => IsShort(letter)
    case Unit(hex) => |hex| == 4 && Utf.IsScalar(UnitOf(hex))
    case Pair(high, low) => |high| == |low| == 4 && Utf.IsHigh(UnitOf(high)) && Utf.IsLow(UnitOf(low))
    case Cut => true
  }

  function CharText(ch: Char): bytes {
    match ch
    case Plain(b) => [b]
    case Short(letter) => [BACKSLASH, letter]
    case Unit(hex) => [BACKSLASH, Utf.LETTER_U] + hex
    case Pair(high, low) => [BACKSLASH, Utf.LETTER_U] + high + ([BACKSLASH, Utf.LETTER_U] + low)
    case Cut => [BACKSLASH]
  }

  /** The bytes a character stands for, in UTF-8. */
  function CharBytes(ch: Char): bytes
    requires CharOk(ch)
  {
    match ch
    case Plain(b) => [b]
    case Short(letter) =>
      [if letter == 0x62 then 8 else if letter == 0x66 then 12 else if letter == 0x6E then LF
       else if letter == 0x72 then CR else if letter == 0x74 then TAB else letter]
    case Unit(hex) => Utf.Encode(UnitOf(hex))
    case Pair(high, low) => Utf.Encode(Utf.PairCodePoint(UnitOf(high), UnitOf(low)))
    case Cut => [QUOTE]
  }

  predicate CharsOk(chars: seq<Char>) {
    forall k :: 0 <= k < |chars| ==> CharOk(chars[k]) && (chars[k].Cut? ==> k == |chars| - 1)
  }

  /** Every quote has a backslash of its own before it, and so has every second backslash: no quote ends the text. */
  predicate Closed(t: bytes)
    decreases |t|
  {
    t == [] || (t[0] != QUOTE && if t[0] == BACKSLASH then |t| > 1 && Closed(t[2..]) else Closed(t[1..]))
  }

  /** What stands between two quotes, with what the two passes over it ask of it. */
  predicate StringOk(chars: seq<Char>): (r: bool)
    ensures r ==> CharsOk(chars)
  {
    CharsOk(chars) && Closed(CharsText(chars))
  }

  function CharsText(chars: seq<Char>): bytes {
    if chars == [] then [] else CharText(chars[0]) + CharsText(chars[1..])
  }

  function CharsBytes(chars: seq<Char>): bytes
    requires CharsOk(chars)
  {
    if chars == [] then [] else CharBytes(chars[0]) + CharsBytes(chars[1..])
  }

  function StringText(chars: seq<Char>): bytes {
    [QUOTE] + CharsText(chars) + [QUOTE]
  }

  lemma HexReads(c: bytes, i: nat, hex: bytes)
    requires |hex| == 4 && TextAt(c, i, hex)
    ensures i + 4 <= |c| && Utf.Hex4(c, i) == UnitOf(hex)
  {
    TextAtByte(c, i, hex, 0);
    TextAtByte(c, i, hex, 1);
    TextAtByte(c, i, hex, 2);
    TextAtByte(c, i, hex, 3);
    if IsHex(hex) {
      var a, b, d := Utf.HexDigit(hex[0]).value, Utf.HexDigit(hex[1]).value, Utf.HexDigit(hex[2]).value;
      assert Utf.HexValue(c, i, 1) == Some(a);
      assert Utf.HexValue(c, i, 2) == Some(16 * a + b);
      assert Utf.HexValue(c, i, 3) == Some(16 * (16 * a + b) + d);
    } else {
      var k :| 0 <= k < 4 && Utf.HexDigit(hex[k]).None?;
      NoHexValue(c, i, k, 4);
    }
  }

  lemma {:induction false} NoHexValue(c: bytes, i: nat, k: nat, n: nat)
    requires k < n && i + n <= |c| && Utf.HexDigit(c[i + k]).None?
    ensures Utf.HexValue(c, i, n).None?
  {
    if k + 1 < n { NoHexValue(c, i, k, n - 1); }
  }

  /** The two bytes before four bytes of an escape, and these. */
  lemma UnitParts(c: bytes, i: nat, hex: bytes)
    requires |hex| == 4 && TextAt(c, i, [BACKSLASH, Utf.LETTER_U] + hex)
    ensures i + 6 <= |c| && c[i] == BACKSLASH && c[i + 1] == Utf.LETTER_U && Utf.Hex4(c, i + 2) == UnitOf(hex)
  {
    var u: bytes := [BACKSLASH, Utf.LETTER_U];
    TextAtSplit(c, i, u, hex);
    TextAtByte(c, i, u, 0);
    TextAtByte(c, i, u, 1);
    HexReads(c, i + 2, hex);
  }

  lemma CharReads(c: bytes, i: nat, e: nat, ch: Char)
    requires CharOk(ch) && TextAt(c, i, CharText(ch)) && i + |CharText(ch)| <= e < |c| && c[e] == QUOTE
    requires ch.Cut? ==> i + 1 == e
    ensures Unescape(c, i, e) == Prepend(CharBytes(ch), Unescape(c, i + |CharText(ch)|, e))
  {
    hide Utf.Hex4, Utf.Encode, UnitOf, AgreesFrom;
    match ch
    case Plain(b) => TextAtByte(c, i, [b], 0);
    case Short(letter) =>
      TextAtByte(c, i, [BACKSLASH, letter], 0);
      TextAtByte(c, i, [BACKSLASH, letter], 1);
    case Unit(hex) =>
      UnitParts(c, i, hex);
      assert Utf.LiteralAt(c, i, e) == Some(Utf.Literal(UnitOf(hex), 6));
    case Pair(high, low) =>
      TextAtSplit(c, i, [BACKSLASH, Utf.LETTER_U] + high, [BACKSLASH, Utf.LETTER_U] + low);
      UnitParts(c, i, high);
      UnitParts(c, i + 6, low);
      assert Utf.LiteralAt(c, i, e) == Some(Utf.Literal(Utf.PairCodePoint(UnitOf(high), UnitOf(low)), 12));
    case Cut => TextAtByte(c, i, [BACKSLASH], 0);
  }

  /** The second pass. */
  lemma {:induction false} CharsRead(c: bytes, i: nat, chars: seq<Char>, e: nat)
    requires CharsOk(chars) && TextAt(c, i, CharsText(chars)) && e == i + |CharsText(chars)| < |c| && c[e] == QUOTE
    ensures Unescape(c, i, e) == Some(CharsBytes(chars))
    decreases |chars|
  {
    hide CharText, CharBytes, CharOk, AgreesFrom, Unescape;
    if chars != [] {
      TextAtSplit(c, i, CharText(chars[0]), CharsText(chars[1..]));
      if chars[0].Cut? { assert CharsText(chars[1..]) == [] && |CharText(chars[0])| == 1 by { CutIsLast(chars); } }
      CharReads(c, i, e, chars[0]);
      CharsRead(c, i + |CharText(chars[0])|, chars[1..], e);
    } else {
      assert Unescape(c, e, e) == Some([]) by { NoChars(c, e); }
    }
  }

  lemma CutIsLast(chars: seq<Char>)
    requires CharsOk(chars) && chars != [] && chars[0].Cut?
    ensures CharsText(chars[1..]) == [] && |CharText(chars[0])| == 1
  {
  }

  lemma NoChars(c: bytes, e: nat)
    requires e < |c|
    ensures Unescape(c, e, e) == Some([])
  {
  }

  /** The first pass. */
  lemma {:induction false} ClosedReads(c: bytes, i: nat, t: bytes)
    requires Closed(t) && TextAt(c, i, t) && i + |t| < |c| && c[i + |t|] == QUOTE
    ensures ClosingQuote(c, i) == Some(i + |t|)
    decreases |t|
  {
    hide AgreesFrom;
    if t != [] {
      var n := if t[0] == BACKSLASH then 2 else 1;
      TextAtByte(c, i, t, 0);
      assert t == t[..n] + t[n..];
      TextAtSplit(c, i, t[..n], t[n..]);
      ClosedReads(c, i + n, t[n..]);
    }
  }

  /** A string reads as the C string its characters make: a `\u0000` ends it. */
  lemma StringReads(c: bytes, o: nat, chars: seq<Char>)
    requires StringOk(chars) && TextAt(c, o, StringText(chars))
    ensures R.Read(ParseString(c, o), CString(CharsBytes(chars)), o + |StringText(chars)|) && c[o] == QUOTE
  {
    hide CharsText, CharsBytes, AgreesFrom, Closed, CharsOk;
    var q: bytes := [QUOTE];
    TextAtSplit(c, o, q + CharsText(chars), q);
    TextAtSplit(c, o, q, CharsText(chars));
    TextAtByte(c, o, q, 0);
    TextAtByte(c, o + 1 + |CharsText(chars)|, q, 0);
    ClosedReads(c, o + 1, CharsText(chars));
    CharsRead(c, o + 1, chars, o + 1 + |CharsText(chars)|);
  }

  // ---------------------------------------------------------------- numbers (section 6)

  datatype Exponent = Exponent(letter: byte, sign: bytes, digits: bytes)

  /** A number as it is written. */
  datatype NumberText = NumberText(minus: bool, whole: bytes, fraction: Option<bytes>, exponent: Option<Exponent>)

  predicate AllDigits(t: bytes) {
    forall k :: 0 <= k < |t| ==> IsDigit(t[k])
  }

  predicate AreDigits(t: bytes) {
    t != [] && AllDigits(t)
  }

  /**
   * At most 63 bytes, as strtod takes them: leading zeros, a point with digits on one side only, and a sign, a
   * point and digits.
   */
  predicate NumberOk(n: NumberText) {
    && AllDigits(n.whole)
    && (n.fraction.Some? ==> AllDigits(n.fraction.value))
    && (n.whole != [] || (n.minus && n.fraction.Some? && n.fraction.value != []))
    && (n.exponent.Some? ==> IsExponent(n.exponent.value.letter) && AreDigits(n.exponent.value.digits)
                             && n.exponent.value.sign in {[], [PLUS], [MINUS]})
    && |Lexeme(n)| <= NUMBER_LIMIT
  }

  function SignText(n: NumberText): bytes {
    if n.minus then [MINUS] else []
  }

  function FractionText(n: NumberText): bytes {
    if n.fraction.Some? then [DOT] + n.fraction.value else []
  }

  function ExponentText(n: NumberText): bytes {
    if n.exponent.Some? then [n.exponent.value.letter] + n.exponent.value.sign + n.exponent.value.digits else []
  }

  function Lexeme(n: NumberText): bytes {
    SignText(n) + n.whole + FractionText(n) + ExponentText(n)
  }

  function DigitsValue(t: bytes): nat
    requires AllDigits(t)
  {
    Decimal.Value(t, 0, |t|)
  }

  /** The decimal number it denotes. */
  function Denoted(n: NumberText): Scaled
    requires NumberOk(n)
  {
    var f := if n.fraction.Some? then n.fraction.value else [];
    var digits: int := DigitsValue(n.whole) * Decimal.Pow10(|f|) + DigitsValue(f);
    var x: int := DigitsValue(if n.exponent.Some? then n.exponent.value.digits else []);
    var exponent := if n.exponent.Some? && n.exponent.value.sign == [MINUS] then -x else x;
    Scaled(if n.minus then -digits else digits, exponent - |f|)
  }

  /** The 32-bit integer it is, or the text of any other number. */
  function NumberValue(n: NumberText): Json
    requires NumberOk(n)
  {
    var w := Whole(Denoted(n));
    if w.Some? && INT_MIN <= w.value <= INT_MAX then Number(w.value) else Real(Lexeme(n))
  }

  /** Where the parts of a number lie: digits from `i` to `j`, from `h` to `k` and from `m` to `e`. */
  datatype Places = Places(i: nat, j: nat, h: nat, k: nat, m: nat, e: nat)

  function PlacesOf(o: nat, n: NumberText): Places {
    var i := o + |SignText(n)|;
    var j := i + |n.whole|;
    var k := j + |FractionText(n)|;
    Places(i, j, if n.fraction.Some? then j + 1 else j, k,
           if n.exponent.Some? then k + 1 + |n.exponent.value.sign| else k, k + |ExponentText(n)|)
  }

  /** A sign, digits, a point and digits, an exponent with its sign and digits; any may miss but some digits. */
  ghost predicate Shape(c: bytes, o: nat, p: Places) {
    && o <= p.i <= p.j <= p.h <= p.k <= p.m <= p.e <= |c| && o < p.e && (p.i < p.j || p.h < p.k)
    && (if IsSign(c[o]) then p.i == o + 1 else p.i == o)
    && (forall x :: p.i <= x < p.j ==> IsDigit(c[x]))
    && (if p.h == p.j then p.k == p.j else p.h == p.j + 1 && c[p.j] == DOT)
    && (forall x :: p.h <= x < p.k ==> IsDigit(c[x]))
    && (if p.k == p.e then p.m == p.e
        else IsExponent(c[p.k]) && p.k < p.m < p.e && if IsSign(c[p.k + 1]) then p.m == p.k + 2 else p.m == p.k + 1)
    && (forall x :: p.m <= x < p.e ==> IsDigit(c[x]))
  }

  /** The parts are those of `n`. */
  ghost predicate Parts(c: bytes, o: nat, p: Places, n: NumberText) {
    && o <= p.i <= p.j <= p.k <= p.e <= |c|
    && c[o..p.i] == SignText(n) && c[p.i..p.j] == n.whole && c[p.j..p.k] == FractionText(n)
    && c[p.k..p.e] == ExponentText(n)
  }

  lemma FourParts(c: bytes, o: nat, s: bytes, w: bytes, f: bytes, x: bytes)
    requires TextAt(c, o, s + w + f + x)
    ensures TextAt(c, o, s) && TextAt(c, o + |s|, w) && TextAt(c, o + |s| + |w|, f)
    ensures TextAt(c, o + |s| + |w| + |f|, x)
  {
    hide AgreesFrom;
    TextAtSplit(c, o, s + w + f, x);
    TextAtSplit(c, o, s + w, f);
    TextAtSplit(c, o, s, w);
  }

  lemma PartsAt(c: bytes, o: nat, n: NumberText)
    requires TextAt(c, o, Lexeme(n))
    ensures Parts(c, o, PlacesOf(o, n), n) && PlacesOf(o, n).e == o + |Lexeme(n)|
  {
    hide AgreesFrom, SignText, FractionText, ExponentText;
    var s, w, f, x := SignText(n), n.whole, FractionText(n), ExponentText(n);
    FourParts(c, o, s, w, f, x);
    TextAtSlice(c, o, s);
    TextAtSlice(c, o + |s|, w);
    TextAtSlice(c, o + |s| + |w|, f);
    TextAtSlice(c, o + |s| + |w| + |f|, x);
  }

  lemma SliceByte(c: bytes, a: nat, b: nat, t: bytes, x: nat)
    requires a <= x < b <= |c| && c[a..b] == t
    ensures x - a < |t| && c[x] == t[x - a]
  {
  }

  lemma WholeShape(c: bytes, o: nat, n: NumberText)
    requires NumberOk(n) && Parts(c, o, PlacesOf(o, n), n)
    ensures var p := PlacesOf(o, n);
            && o <= p.i <= p.j && o < p.e && (p.i < p.j <==> n.whole != []) && (c[o] == MINUS || IsDigit(c[o]))
            && (if IsSign(c[o]) then p.i == o + 1 else p.i == o) && (n.minus <==> c[o] == MINUS)
            && forall x :: p.i <= x < p.j ==> IsDigit(c[x])
  {
    var p := PlacesOf(o, n);
    if n.minus { SliceByte(c, o, p.i, SignText(n), o); } else { SliceByte(c, p.i, p.j, n.whole, o); }
    forall x | p.i <= x < p.j ensures IsDigit(c[x]) { SliceByte(c, p.i, p.j, n.whole, x); }
  }

  lemma FractionShape(c: bytes, o: nat, n: NumberText)
    requires NumberOk(n) && Parts(c, o, PlacesOf(o, n), n)
    ensures var p := PlacesOf(o, n);
            && p.j <= p.h <= p.k && (n.fraction.Some? && n.fraction.value != [] <==> p.h < p.k)
            && (if p.h == p.j then p.k == p.j else p.h == p.j + 1 && c[p.j] == DOT)
            && (forall x :: p.h <= x < p.k ==> IsDigit(c[x]))
            && c[p.h..p.k] == if n.fraction.Some? then n.fraction.value else []
  {
    var p := PlacesOf(o, n);
    if n.fraction.Some? {
      var f := n.fraction.value;
      SliceByte(c, p.j, p.k, [DOT] + f, p.j);
      forall x | p.h <= x < p.k ensures c[x] == f[x - p.h] { SliceByte(c, p.j, p.k, [DOT] + f, x); }
    }
  }

  lemma ExponentShape(c: bytes, o: nat, n: NumberText)
    requires NumberOk(n) && Parts(c, o, PlacesOf(o, n), n)
    ensures var p := PlacesOf(o, n);
            && p.k <= p.m <= p.e && (forall x :: p.m <= x < p.e ==> IsDigit(c[x])) && (n.exponent.None? <==> p.k == p.e)
            && (if p.k == p.e then p.m == p.e
                else IsExponent(c[p.k]) && p.k < p.m < p.e
                     && if IsSign(c[p.k + 1]) then p.m == p.k + 2 else p.m == p.k + 1)
            && (n.exponent.Some? ==> p.k < p.e && (n.exponent.value.sign == [MINUS] <==> c[p.k + 1] == MINUS))
            && c[p.m..p.e] == if n.exponent.Some? then n.exponent.value.digits else []
  {
    var p := PlacesOf(o, n);
    if n.exponent.Some? {
      var x := n.exponent.value;
      var t := ExponentText(n);
      SliceByte(c, p.k, p.e, t, p.k);
      SliceByte(c, p.k, p.e, t, p.k + 1);
      forall y | p.m <= y < p.e ensures c[y] == x.digits[y - p.m] { SliceByte(c, p.k, p.e, t, y); }
    }
  }

  lemma ShapeAt(c: bytes, o: nat, n: NumberText)
    requires NumberOk(n) && Parts(c, o, PlacesOf(o, n), n)
    ensures Shape(c, o, PlacesOf(o, n))
  {
    WholeShape(c, o, n);
    FractionShape(c, o, n);
    ExponentShape(c, o, n);
  }

  lemma {:induction false} DigitsStop(c: bytes, i: nat, j: nat, e: nat)
    requires i <= j <= e <= |c| && (forall x :: i <= x < j ==> IsDigit(c[x])) && (j < e ==> !IsDigit(c[j]))
    ensures Decimal.DigitsEnd(c, i, e) == j
    decreases j - i
  {
    if i < j { DigitsStop(c, i + 1, j, e); }
  }

  lemma {:induction false} ValueAt(c: bytes, i: nat, e: nat, t: bytes)
    requires i <= e <= |c| && c[i..e] == t && (forall x :: i <= x < e ==> IsDigit(c[x]))
    requires AllDigits(t)
    ensures Decimal.Value(c, i, e) == DigitsValue(t)
    decreases e - i
  {
    if i < e {
      var u := t[..|t| - 1];
      assert c[i..e - 1] == u && c[e - 1] == t[|t| - 1];
      ValueAt(c, i, e - 1, u);
      SameFront(u, t, |u|);
    }
  }

  lemma {:induction false} SameFront(s: bytes, t: bytes, n: nat)
    requires n <= |s| && n <= |t| && s[..n] == t[..n] && forall x :: 0 <= x < n ==> IsDigit(s[x]) && IsDigit(t[x])
    ensures Decimal.Value(s, 0, n) == Decimal.Value(t, 0, n)
  {
    if n > 0 {
      assert s[..n - 1] == s[..n][..n - 1] && t[..n - 1] == t[..n][..n - 1];
      assert s[n - 1] == s[..n][n - 1] && t[n - 1] == t[..n][n - 1];
      SameFront(s, t, n - 1);
    }
  }

  lemma ShapeEnds(c: bytes, o: nat, p: Places)
    requires Shape(c, o, p)
    ensures SignEnd(c, o, p.e) == p.i && Decimal.DigitsEnd(c, p.i, p.e) == p.j
    ensures p.h == if p.j < p.e && c[p.j] == DOT then p.j + 1 else p.j
    ensures p.k == if p.h > p.j then Decimal.DigitsEnd(c, p.h, p.e) else p.j
    ensures p.k < p.e ==> IsExponent(c[p.k]) && SignEnd(c, p.k + 1, p.e) == p.m < p.e
    ensures Decimal.DigitsEnd(c, p.m, p.e) == p.e && (p.k == p.e ==> p.m == p.e)
  {
    DigitsStop(c, p.i, p.j, p.e);
    DigitsStop(c, p.h, p.k, p.e);
    DigitsStop(c, p.m, p.e, p.e);
  }

  lemma StrtodTakesAll(c: bytes, o: nat, p: Places)
    requires Shape(c, o, p)
    ensures StrtodEnd(c, o, p.e) == p.e
  {
    ShapeEnds(c, o, p);
    hide Decimal.DigitsEnd, SignEnd;
  }

  /** What a shape says, from the values of its parts. */
  lemma ScaledOfShape(t: bytes, p: Places, a: nat, b: nat, x: int)
    requires Shape(t, 0, p) && p.e == |t|
    requires Decimal.Value(t, p.i, p.j) == a && Decimal.Value(t, p.h, p.k) == b && Decimal.Value(t, p.m, p.e) == x
    ensures var digits: int := a * Decimal.Pow10(p.k - p.h) + b;
            ScaledOf(t) == Scaled(if t[0] == MINUS then -digits else digits,
                                  (if p.k < p.e && t[p.k + 1] == MINUS then -x else x) - (p.k - p.h))
  {
    ShapeEnds(t, 0, p);
    hide Shape, Decimal.DigitsEnd, SignEnd, Decimal.Value, Decimal.Pow10;
  }

  /** Where the parts of a number's own text lie, and their values. */
  lemma PartsOfLexeme(n: NumberText, f: bytes, x: bytes) returns (p: Places)
    requires NumberOk(n) && f == (if n.fraction.Some? then n.fraction.value else [])
    requires x == if n.exponent.Some? then n.exponent.value.digits else []
    ensures var t := Lexeme(n);
            && Shape(t, 0, p) && p.e == |t| && |f| == p.k - p.h && (n.minus <==> t[0] == MINUS)
            && (n.exponent.Some? && n.exponent.value.sign == [MINUS] <==> p.k < p.e && t[p.k + 1] == MINUS)
            && AllDigits(f) && AllDigits(x)
            && Decimal.Value(t, p.i, p.j) == DigitsValue(n.whole) && Decimal.Value(t, p.h, p.k) == DigitsValue(f)
            && Decimal.Value(t, p.m, p.e) == DigitsValue(x)
  {
    hide AgreesFrom, DigitsValue, PlacesOf, Lexeme, Parts;
    var t := Lexeme(n);
    p := PlacesOf(0, n);
    TextAtWhole(t);
    PartsAt(t, 0, n);
    ShapeAt(t, 0, n);
    PartValues(t, n);
    WholeShape(t, 0, n);
    FractionShape(t, 0, n);
    ExponentShape(t, 0, n);
    assert |t[p.h..p.k]| == |f|;
  }

  lemma ScaledOfLexeme(n: NumberText)
    requires NumberOk(n)
    ensures ScaledOf(Lexeme(n)) == Denoted(n)
  {
    hide ScaledOf, Denoted, DigitsValue, Decimal.Value, Decimal.Pow10, Lexeme, AllDigits;
    var f: bytes := if n.fraction.Some? then n.fraction.value else [];
    var x: bytes := if n.exponent.Some? then n.exponent.value.digits else [];
    var p := PartsOfLexeme(n, f, x);
    ScaledOfShape(Lexeme(n), p, DigitsValue(n.whole), DigitsValue(f), DigitsValue(x));
    DenotedIs(n, Lexeme(n)[0] == MINUS, f, x, p.k < p.e && Lexeme(n)[p.k + 1] == MINUS);
  }

  lemma DenotedIs(n: NumberText, minus: bool, f: bytes, x: bytes, down: bool)
    requires NumberOk(n) && (n.minus <==> minus) && f == (if n.fraction.Some? then n.fraction.value else [])
    requires x == if n.exponent.Some? then n.exponent.value.digits else []
    requires down <==> n.exponent.Some? && n.exponent.value.sign == [MINUS]
    ensures var digits: int := DigitsValue(n.whole) * Decimal.Pow10(|f|) + DigitsValue(f);
            var exponent: int := DigitsValue(x);
            Denoted(n) == Scaled(if minus then -digits else digits, (if down then -exponent else exponent) - |f|)
  {
    hide DigitsValue, Decimal.Pow10, Lexeme;
  }

  lemma PartValues(t: bytes, n: NumberText)
    requires NumberOk(n) && Parts(t, 0, PlacesOf(0, n), n) && Shape(t, 0, PlacesOf(0, n))
    ensures var p := PlacesOf(0, n);
            && Decimal.Value(t, p.i, p.j) == DigitsValue(n.whole)
            && Decimal.Value(t, p.h, p.k) == DigitsValue(if n.fraction.Some? then n.fraction.value else [])
            && Decimal.Value(t, p.m, p.e) == DigitsValue(if n.exponent.Some? then n.exponent.value.digits else [])
  {
    hide Decimal.Value;
    var p := PlacesOf(0, n);
    FractionShape(t, 0, n);
    ExponentShape(t, 0, n);
    ValueAt(t, p.i, p.j, n.whole);
    ValueAt(t, p.h, p.k, if n.fraction.Some? then n.fraction.value else []);
    ValueAt(t, p.m, p.e, if n.exponent.Some? then n.exponent.value.digits else []);
  }

  lemma ShapeBytes(c: bytes, o: nat, p: Places)
    requires Shape(c, o, p)
    ensures forall x :: o <= x < p.e ==> IsNumberByte(c[x])
  {
  }

  /** No number at `o` is longer than the one that ends at `e`. */
  ghost predicate Longest(c: bytes, o: nat, e: nat) {
    forall n :: NumberOk(n) && TextAt(c, o, Lexeme(n)) ==> o + |Lexeme(n)| <= e
  }

  lemma {:induction false} RunCovers(c: bytes, o: nat, e: nat, n: nat)
    requires n <= NUMBER_LIMIT && o + n <= e <= |c| && e - o <= NUMBER_LIMIT
    requires forall i :: o <= i < e ==> IsNumberByte(c[i])
    ensures e <= o + NumberRun(c, o, n)
    decreases e - o - n
  {
    if o + n < e { RunCovers(c, o, e, n + 1); }
  }

  lemma {:induction false} DigitsReach(c: bytes, i: nat, j: nat, w: nat)
    requires i <= j <= w <= |c| && forall x :: i <= x < j ==> IsDigit(c[x])
    ensures j <= Decimal.DigitsEnd(c, i, w) && (j < w && !IsDigit(c[j]) ==> Decimal.DigitsEnd(c, i, w) == j)
    decreases j - i
  {
    if i < j { DigitsReach(c, i + 1, j, w); }
  }

  /** strtod goes at least as far as any number does. */
  lemma StrtodReaches(c: bytes, o: nat, p: Places, w: nat)
    requires Shape(c, o, p) && p.e <= w <= |c|
    ensures p.e <= StrtodEnd(c, o, w)
  {
    DigitsReach(c, p.i, p.j, w);
    DigitsReach(c, p.h, p.k, w);
    DigitsReach(c, p.m, p.e, w);
    hide Decimal.DigitsEnd;
  }

  lemma NumberBytes(c: bytes, o: nat, n: NumberText)
    requires NumberOk(n) && TextAt(c, o, Lexeme(n))
    ensures o < o + |Lexeme(n)| <= |c| && Shape(c, o, PlacesOf(o, n)) && PlacesOf(o, n).e == o + |Lexeme(n)|
    ensures forall x :: o <= x < o + |Lexeme(n)| ==> IsNumberByte(c[x])
    ensures c[o] == MINUS || IsDigit(c[o])
  {
    hide AgreesFrom, PlacesOf, Parts;
    PartsAt(c, o, n);
    ShapeAt(c, o, n);
    WholeShape(c, o, n);
    ShapeBytes(c, o, PlacesOf(o, n));
  }

  /** A number behind which there is no byte of a number is the longest. */
  lemma EndIsLongest(c: bytes, o: nat, e: nat)
    requires o <= e && R.EndsNumber(c, e)
    ensures Longest(c, o, e)
  {
    forall n | NumberOk(n) && TextAt(c, o, Lexeme(n)) ensures o + |Lexeme(n)| <= e { NumberBytes(c, o, n); }
  }

  /** Where strtod stops is the longest number there is. */
  lemma StrtodIsLongest(c: bytes, o: nat)
    requires o <= |c|
    ensures Longest(c, o, StrtodEnd(c, o, o + NumberRun(c, o, 0)))
  {
    hide NumberRun, StrtodEnd, Shape, NumberOk, Lexeme, PlacesOf;
    var w := o + NumberRun(c, o, 0);
    forall n | NumberOk(n) && TextAt(c, o, Lexeme(n)) ensures o + |Lexeme(n)| <= StrtodEnd(c, o, w) {
      NumberBytes(c, o, n);
      assert |Lexeme(n)| <= NUMBER_LIMIT by { WithinLimit(n); }
      RunCovers(c, o, o + |Lexeme(n)|, 0);
      StrtodReaches(c, o, PlacesOf(o, n), w);
    }
  }

  lemma WithinLimit(n: NumberText)
    requires NumberOk(n)
    ensures |Lexeme(n)| <= NUMBER_LIMIT
  {
  }

  /** Where strtod finds the parts of a number. */
  lemma PartsFound(c: bytes, o: nat, w: nat) returns (p: Places)
    requires o <= w <= |c| && StrtodEnd(c, o, w) > o
    ensures Shape(c, o, p) && p.e == StrtodEnd(c, o, w)
  {
    var i := SignEnd(c, o, w);
    var j := Decimal.DigitsEnd(c, i, w);
    var e := StrtodEnd(c, o, w);
    var h := if j < e && c[j] == DOT then j + 1 else j;
    var k := if h > j then Decimal.DigitsEnd(c, h, w) else j;
    var m := if k < e then SignEnd(c, k + 1, w) else e;
    Decimal.DigitsEndSpans(c, i, w);
    Decimal.DigitsEndSpans(c, h, w);
    Decimal.DigitsEndSpans(c, m, w);
    p := Places(i, j, h, k, m, e);
  }

  function NumberAt(c: bytes, o: nat, p: Places): NumberText
    requires o <= p.i <= p.j <= p.h <= p.k <= p.m <= p.e <= |c| && (p.k < p.e ==> p.k < p.m)
  {
    NumberText(p.i > o, c[p.i..p.j], if p.h > p.j then Some(c[p.h..p.k]) else None,
               if p.k < p.e then Some(Exponent(c[p.k], c[p.k + 1..p.m], c[p.m..p.e])) else None)
  }

  lemma Headed(c: bytes, a: nat, b: nat)
    requires a < b <= |c|
    ensures c[a..b] == [c[a]] + c[a + 1..b]
  {
  }

  lemma FractionFound(c: bytes, o: nat, p: Places)
    requires Shape(c, o, p)
    ensures FractionText(NumberAt(c, o, p)) == c[p.j..p.k]
  {
    if p.h > p.j { Headed(c, p.j, p.k); }
  }

  lemma ExponentFound(c: bytes, o: nat, p: Places)
    requires Shape(c, o, p)
    ensures ExponentText(NumberAt(c, o, p)) == c[p.k..p.e]
  {
    if p.k < p.e { HeadAndTwo(c, p.k, p.m, p.e); }
  }

  lemma HeadAndTwo(c: bytes, k: nat, m: nat, e: nat)
    requires k < m <= e <= |c|
    ensures [c[k]] + c[k + 1..m] + c[m..e] == c[k..e]
  {
  }

  lemma SignFound(c: bytes, o: nat, p: Places)
    requires Shape(c, o, p) && p.k < p.e
    ensures NumberAt(c, o, p).exponent.value.sign in {[], [PLUS], [MINUS]}
  {
    if p.m == p.k + 2 {
      OneByte(c, p.k + 1);
    } else {
      assert c[p.k + 1..p.m] == [];
    }
  }

  lemma OneByte(c: bytes, i: nat)
    requires i < |c|
    ensures c[i..i + 1] == [c[i]]
  {
  }

  lemma NumberAtIs(c: bytes, o: nat, p: Places)
    requires Shape(c, o, p) && (c[o] == MINUS || IsDigit(c[o])) && p.e - o <= NUMBER_LIMIT
    ensures Lexeme(NumberAt(c, o, p)) == c[o..p.e] && NumberOk(NumberAt(c, o, p))
  {
    NumberAtReads(c, o, p);
    NumberAtFits(c, o, p);
  }

  lemma NumberAtReads(c: bytes, o: nat, p: Places)
    requires Shape(c, o, p) && (c[o] == MINUS || IsDigit(c[o]))
    ensures Lexeme(NumberAt(c, o, p)) == c[o..p.e]
  {
    FractionFound(c, o, p);
    ExponentFound(c, o, p);
    if p.i == o + 1 { OneByte(c, o); }
    assert SignText(NumberAt(c, o, p)) == c[o..p.i];
    Joined4(c, o, p.i, p.j, p.k, p.e);
  }

  lemma NumberAtFits(c: bytes, o: nat, p: Places)
    requires Shape(c, o, p) && (c[o] == MINUS || IsDigit(c[o])) && |Lexeme(NumberAt(c, o, p))| <= NUMBER_LIMIT
    ensures NumberOk(NumberAt(c, o, p))
  {
    hide Lexeme;
    if p.k < p.e { SignFound(c, o, p); }
  }

  lemma Joined4(c: bytes, o: nat, i: nat, j: nat, k: nat, e: nat)
    requires o <= i <= j <= k <= e <= |c|
    ensures c[o..i] + c[i..j] + c[j..k] + c[k..e] == c[o..e]
  {
  }

  /** What strtod takes is a number. */
  lemma NumberFound(c: bytes, o: nat, w: nat) returns (n: NumberText)
    requires o < w <= |c| && w - o <= NUMBER_LIMIT && (c[o] == MINUS || IsDigit(c[o])) && StrtodEnd(c, o, w) > o
    ensures NumberOk(n) && TextAt(c, o, Lexeme(n)) && o + |Lexeme(n)| == StrtodEnd(c, o, w)
  {
    hide StrtodEnd, Lexeme, AgreesFrom;
    var p := PartsFound(c, o, w);
    n := NumberAt(c, o, p);
    NumberAtIs(c, o, p);
    TextAtSlice(c, o, c[o..p.e]);
  }

  /** A number of at most 63 bytes, the longest at its place, is read whole, for what it denotes. */
  lemma NumberReads(c: bytes, o: nat, n: NumberText)
    requires NumberOk(n) && TextAt(c, o, Lexeme(n)) && Longest(c, o, o + |Lexeme(n)|)
    ensures R.Read(ParseNumber(c, o), NumberValue(n), o + |Lexeme(n)|)
    ensures o < |c| && (c[o] == MINUS || IsDigit(c[o]))
  {
    hide ParseNumber, NumberRun, StrtodEnd, Denoted, ScaledOf, Whole, AgreesFrom, PlacesOf, Parts, Shape, Lexeme;
    var t, w := Lexeme(n), o + NumberRun(c, o, 0);
    NumberBytes(c, o, n);
    StrtodIsLongest(c, o);
    var m := NumberFound(c, o, w);
    assert StrtodEnd(c, o, w) == o + |t|;
    TextAtSlice(c, o, t);
    ScaledOfLexeme(n);
    ParseNumberIs(c, o, w - o, o + |t|, NumberOf(t));
  }

  lemma TextAtWhole(t: bytes)
    ensures TextAt(t, 0, t)
  {
    AgreesIf(t, 0, t, 0);
  }

  // ---------------------------------------------------------------- values, arrays and objects (sections 2 to 5)

  datatype Syntax =
    | NullWord
    | FalseWord
    | TrueWord
    | Num(number: NumberText)
    | Str(chars: seq<Char>)
    | Arr(blank: bytes, elements: seq<Element>)
    | Obj(blank: bytes, entries: seq<Entry>)

  /** A value in an array, and the white space around it; `blank` above is what an empty array or object holds. */
  datatype Element = Element(before: bytes, value: Syntax, after: bytes)

  datatype Entry =
    Entry(before: bytes, key: seq<Char>, beforeColon: bytes, afterColon: bytes, value: Syntax, after: bytes)

  /** The parser takes any byte up to the space for white space. */
  predicate IsBlank(t: bytes) {
    forall k :: 0 <= k < |t| ==> t[k] <= 32
  }

  predicate Ok(s: Syntax) {
    match s
    case Num(n) => NumberOk(n)
    case Str(chars) => StringOk(chars)
    case Arr(blank, elements) =>
      IsBlank(blank)
      && forall k :: 0 <= k < |elements| ==>
           IsBlank(elements[k].before) && IsBlank(elements[k].after) && Ok(elements[k].value)
    case Obj(blank, entries) =>
      IsBlank(blank)
      && forall k :: 0 <= k < |entries| ==>
           && IsBlank(entries[k].before) && IsBlank(entries[k].beforeColon) && IsBlank(entries[k].afterColon)
           && IsBlank(entries[k].after) && StringOk(entries[k].key) && Ok(entries[k].value)
    case _ => true
  }

  /** One of several texts separated by commas, and the white space around it. */
  datatype Item = Item(before: bytes, text: bytes, after: bytes)

  function Listed(items: seq<Item>, i: nat): bytes
    decreases |items| - i
  {
    if i >= |items| then []
    else
      items[i].before + items[i].text + items[i].after
      + if i + 1 < |items| then [COMMA] + Listed(items, i + 1) else []
  }

  function ColonPart(e: Entry): bytes {
    e.beforeColon + [COLON] + e.afterColon
  }

  function Text(s: Syntax): bytes {
    match s
    case NullWord => NULL_TEXT
    case FalseWord => FALSE_TEXT
    case TrueWord => TRUE_TEXT
    case Num(n) => Lexeme(n)
    case Str(chars) => StringText(chars)
    case Arr(blank, elements) =>
      var items := seq(|elements|, k requires 0 <= k < |elements| =>
        Item(elements[k].before, Text(elements[k].value), elements[k].after));
      [LBRACKET] + (if elements == [] then blank else Listed(items, 0)) + [RBRACKET]
    case Obj(blank, entries) =>
      var items := seq(|entries|, k requires 0 <= k < |entries| =>
        Item(entries[k].before, StringText(entries[k].key) + ColonPart(entries[k]) + Text(entries[k].value),
             entries[k].after));
      [LBRACE] + (if entries == [] then blank else Listed(items, 0)) + [RBRACE]
  }

  /** The value a text denotes, strings as the C strings they become. */
  function Value(s: Syntax): Json
    requires Ok(s)
  {
    match s
    case NullWord => Null
    case FalseWord => False
    case TrueWord => True
    case Num(n) => NumberValue(n)
    case Str(chars) => String(CString(CharsBytes(chars)))
    case Arr(_, elements) => Array(seq(|elements|, k requires 0 <= k < |elements| => Value(elements[k].value)))
    case Obj(_, entries) =>
      Object(seq(|entries|, k requires 0 <= k < |entries| =>
        Member(CString(CharsBytes(entries[k].key)), Value(entries[k].value))))
  }

  function ElementItems(elements: seq<Element>): (r: seq<Item>)
    ensures |r| == |elements|
  {
    seq(|elements|, k requires 0 <= k < |elements| =>
      Item(elements[k].before, Text(elements[k].value), elements[k].after))
  }

  function ElementValues(elements: seq<Element>): (r: seq<Json>)
    requires forall k :: 0 <= k < |elements| ==> Ok(elements[k].value)
    ensures |r| == |elements|
  {
    seq(|elements|, k requires 0 <= k < |elements| => Value(elements[k].value))
  }

  function EntryText(e: Entry): bytes {
    StringText(e.key) + ColonPart(e) + Text(e.value)
  }

  function EntryItems(entries: seq<Entry>): (r: seq<Item>)
    ensures |r| == |entries|
  {
    seq(|entries|, k requires 0 <= k < |entries| =>
      Item(entries[k].before, EntryText(entries[k]), entries[k].after))
  }

  function EntryValues(entries: seq<Entry>): (r: seq<Member>)
    requires forall k :: 0 <= k < |entries| ==> StringOk(entries[k].key) && Ok(entries[k].value)
    ensures |r| == |entries|
  {
    seq(|entries|, k requires 0 <= k < |entries| =>
      (assert StringOk(entries[k].key); Member(CString(CharsBytes(entries[k].key)), Value(entries[k].value))))
  }

  lemma ArrText(blank: bytes, elements: seq<Element>)
    ensures Text(Arr(blank, elements)) ==
            [LBRACKET] + (if elements == [] then blank else Listed(ElementItems(elements), 0)) + [RBRACKET]
  {
    var items := seq(|elements|, k requires 0 <= k < |elements| =>
      Item(elements[k].before, Text(elements[k].value), elements[k].after));
    assert items == ElementItems(elements);
  }

  lemma ObjText(blank: bytes, entries: seq<Entry>)
    ensures Text(Obj(blank, entries)) ==
            [LBRACE] + (if entries == [] then blank else Listed(EntryItems(entries), 0)) + [RBRACE]
  {
    var items := seq(|entries|, k requires 0 <= k < |entries| =>
      Item(entries[k].before, StringText(entries[k].key) + ColonPart(entries[k]) + Text(entries[k].value),
           entries[k].after));
    assert items == EntryItems(entries);
  }

  lemma ArrValue(blank: bytes, elements: seq<Element>)
    requires Ok(Arr(blank, elements))
    ensures Value(Arr(blank, elements)) == Array(ElementValues(elements))
  {
    assert ElementValues(elements) ==
           seq(|elements|, k requires 0 <= k < |elements| => Value(elements[k].value));
  }

  lemma ObjValue(blank: bytes, entries: seq<Entry>)
    requires Ok(Obj(blank, entries))
    ensures Value(Obj(blank, entries)) == Object(EntryValues(entries))
  {
    assert EntryValues(entries) ==
           seq(|entries|, k requires 0 <= k < |entries| =>
             Member(CString(CharsBytes(entries[k].key)), Value(entries[k].value)));
  }

  // ---------------------------------------------------------------- lists of any reader

  lemma WhiteIsBlank(c: bytes, q: nat, t: bytes)
    requires TextAt(c, q, t) && IsBlank(t)
    ensures R.Blank(c, q, q + |t|)
    ensures R.EndsNumber(c, q) || t == []
  {
    hide AgreesFrom;
    TextAtSlice(c, q, t);
    forall k | q <= k < q + |t| ensures c[k] == t[k - q] { SliceByte(c, q, q + |t|, t, k); }
  }

  /** Every text starts with a visible byte that closes nothing and is no byte-order mark. */
  lemma TextStarts(s: Syntax)
    requires Ok(s)
    ensures Text(s) != [] && 32 < Text(s)[0] < 0x80 && Text(s)[0] !in {RBRACKET, RBRACE}
  {
  }

  ghost predicate ItemOk(it: Item) {
    IsBlank(it.before) && IsBlank(it.after) && it.text != [] && 32 < it.text[0] && it.text[0] !in {RBRACKET, RBRACE}
  }

  /** The reader finds each of the items from `i` on where it lies, item `i` being written at `q`. */
  ghost predicate Reads<T(!new)>(
      item: nat -> Option<Parsed<T>>, q: nat, items: seq<Item>, i: nat, values: seq<T>)
    requires |values| == |items|
    decreases |items| - i
  {
    i < |items| ==>
      var s := q + |items[i].before|;
      var e := s + |items[i].text|;
      R.Read(item(s), values[i], e) && Reads(item, e + |items[i].after| + 1, items, i + 1, values)
  }

  lemma ListedStep(items: seq<Item>, i: nat)
    requires i < |items|
    ensures Listed(items, i) ==
            items[i].before + items[i].text + items[i].after
            + if i + 1 < |items| then [COMMA] + Listed(items, i + 1) else []
  {
  }

  /** Where item `i`, written at `q`, starts, ends, and gives way to a comma or the closing byte. */
  lemma ItemLayout(c: bytes, q: nat, items: seq<Item>, i: nat, close: byte) returns (s: nat, e: nat, stop: nat)
    requires i < |items| && ItemOk(items[i]) && TextAt(c, q, Listed(items, i)) && close in {RBRACKET, RBRACE}
    requires q + |Listed(items, i)| < |c| && c[q + |Listed(items, i)|] == close
    ensures s == q + |items[i].before| && e == s + |items[i].text| && stop == e + |items[i].after| < |c|
    ensures R.Blank(c, q, s) && c[s] == items[i].text[0] && TextAt(c, s, items[i].text) && R.Blank(c, e, stop)
    ensures R.EndsNumber(c, e)
    ensures if i + 1 < |items| then
              c[stop] == COMMA && TextAt(c, stop + 1, Listed(items, i + 1))
              && stop + 1 + |Listed(items, i + 1)| == q + |Listed(items, i)|
            else c[stop] == close && stop == q + |Listed(items, i)|
  {
    hide AgreesFrom, IsBlank, Listed;
    ListedStep(items, i);
    var it := items[i];
    s := q + |it.before|;
    e := s + |it.text|;
    stop := e + |it.after|;
    var more: bytes := if i + 1 < |items| then [COMMA] + Listed(items, i + 1) else [];
    TextAtSplit(c, q, it.before + it.text + it.after, more);
    TextAtSplit(c, q, it.before + it.text, it.after);
    TextAtSplit(c, q, it.before, it.text);
    TextAtByte(c, s, it.text, 0);
    WhiteIsBlank(c, q, it.before);
    WhiteIsBlank(c, e, it.after);
    if i + 1 < |items| {
      TextAtSplit(c, stop, [COMMA], Listed(items, i + 1));
      TextAtByte(c, stop, [COMMA], 0);
    }
  }

  lemma {:induction false} ListReads<T(!new)>(
      c: bytes, q: nat, items: seq<Item>, i: nat, item: nat -> Option<Parsed<T>>, values: seq<T>, close: byte)
    requires q <= |c| && Advancing(c, item) && i < |items| == |values| && close in {RBRACKET, RBRACE}
    requires forall k :: 0 <= k < |items| ==> ItemOk(items[k])
    requires TextAt(c, q, Listed(items, i)) && q + |Listed(items, i)| < |c| && c[q + |Listed(items, i)|] == close
    requires Reads(item, q, items, i, values)
    ensures R.Read(ParseList(c, q, item, close), From(values, i), q + |Listed(items, i)| + 1)
    decreases |items| - i
  {
    hide AgreesFrom, Listed, ParseList, Skip, ItemOk, Advancing, IsBlank, R.Blank, R.EndsNumber;
    TextVisible(items[i]);
    var s, e, stop := ItemLayout(c, q, items, i, close);
    var end := q + |Listed(items, i)| + 1;
    assert From(values, i) == [values[i]] + From(values, i + 1);
    if i + 1 < |items| { ListReads(c, stop + 1, items, i + 1, item, values, close); }
    TurnReads(c, q, s, e, stop, item, close, values[i], From(values, i + 1), end);
  }

  /** An item, and behind it the closing byte or a comma and the rest of the list. */
  lemma TurnReads<T(!new)>(c: bytes, q: nat, s: nat, e: nat, stop: nat, item: nat -> Option<Parsed<T>>, close: byte,
                           value: T, rest: seq<T>, end: nat)
    requires q <= |c| && Advancing(c, item) && close in {RBRACKET, RBRACE}
    requires R.Blank(c, q, s) && s < |c| && c[s] > 32 && R.Read(item(s), value, e)
    requires R.Blank(c, e, stop) && stop < |c|
    requires if c[stop] == COMMA then R.Read(ParseList(c, stop + 1, item, close), rest, end)
             else c[stop] == close && rest == [] && end == stop + 1
    ensures R.Read(ParseList(c, q, item, close), [value] + rest, end)
  {
    hide Skip, ParseList, Advancing;
    R.SkipBlank(c, q, s);
    R.SkipBlank(c, e, stop);
    ListIsTurn(c, q, item, close, stop, ParseList(c, stop + 1, item, close));
    if c[stop] == close { assert [value] + rest == [value]; }
  }

  lemma TextVisible(it: Item)
    requires ItemOk(it)
    ensures it.text != [] && 32 < it.text[0] && it.text[0] !in {RBRACKET, RBRACE}
  {
  }

  /** A bracketed list of such items. */
  lemma BracketsRead<T(!new)>(
      c: bytes, o: nat, items: seq<Item>, item: nat -> Option<Parsed<T>>, values: seq<T>, close: byte)
    requires o < |c| && Advancing(c, item) && 0 < |items| == |values| && close in {RBRACKET, RBRACE}
    requires forall k :: 0 <= k < |items| ==> ItemOk(items[k])
    requires TextAt(c, o + 1, Listed(items, 0)) && o + 1 + |Listed(items, 0)| < |c|
    requires c[o + 1 + |Listed(items, 0)|] == close && Reads(item, o + 1, items, 0, values)
    ensures R.Read(ParseBracketed(c, o, item, close), values, o + 2 + |Listed(items, 0)|)
  {
    hide AgreesFrom, Listed, ParseList, ParseBracketed, Skip, Advancing, ItemOk, IsBlank, Reads, R.EndsNumber, R.Blank;
    TextVisible(items[0]);
    var s, e, stop := ItemLayout(c, o + 1, items, 0, close);
    ListReads(c, o + 1, items, 0, item, values, close);
    FromIsSuffix(values, 0);
    BracketsOpen(c, o, s, item, close);
  }

  /** A list behind an opening byte, its first item at `s`. */
  lemma BracketsOpen<T(!new)>(c: bytes, o: nat, s: nat, item: nat -> Option<Parsed<T>>, close: byte)
    requires o < |c| && Advancing(c, item) && R.Blank(c, o + 1, s) && s < |c| && c[s] > 32 && c[s] != close
    ensures ParseBracketed(c, o, item, close) == ParseList(c, o + 1, item, close)
  {
    hide Skip, ParseList, Advancing;
    R.SkipBlank(c, o + 1, s);
    R.SkipBlank(c, s, s);
    SameList(c, o + 1, s, item, close);
  }

  lemma SameList<T(!new)>(c: bytes, p: nat, q: nat, item: nat -> Option<Parsed<T>>, close: byte)
    requires p <= |c| && q <= |c| && Advancing(c, item) && Skip(c, p) == Skip(c, q)
    ensures ParseList(c, p, item, close) == ParseList(c, q, item, close)
  {
    hide Skip;
  }

  // ---------------------------------------------------------------- every text is taken for its value

  /** A value's text is read whole, for the value, wherever it lies. */
  lemma {:induction false} ValueReads(c: bytes, o: nat, s: Syntax, room: nat)
    requires Ok(s) && NestsWithin(Value(s), room)
    requires TextAt(c, o, Text(s)) && (s.Num? ==> Longest(c, o, o + |Text(s)|))
    ensures R.Read(ParseValue(c, o, room), Value(s), o + |Text(s)|)
    decreases s, 9
  {
    hide *;
    match s
    case Arr(blank, elements) => ArrReads(c, o, blank, elements, room);
    case Obj(blank, entries) => ObjReads(c, o, blank, entries, room);
    case _ => ScalarReads(c, o, s, room);
  }

  lemma ScalarReads(c: bytes, o: nat, s: Syntax, room: nat)
    requires Ok(s) && !s.Arr? && !s.Obj? && TextAt(c, o, Text(s)) && (s.Num? ==> Longest(c, o, o + |Text(s)|))
    ensures R.Read(ParseValue(c, o, room), Value(s), o + |Text(s)|)
  {
    hide ParseString, ParseNumber, AgreesFrom, Lexeme, NumberValue, StringText, CharsBytes, Longest, StringOk;
    match s
    case NullWord =>
      TextAtByte(c, o, NULL_TEXT, 0);
    case FalseWord =>
      TextAtByte(c, o, FALSE_TEXT, 0);
      R.NotText(c, o, NULL_TEXT);
    case TrueWord =>
      TextAtByte(c, o, TRUE_TEXT, 0);
      R.NotText(c, o, NULL_TEXT);
      R.NotText(c, o, FALSE_TEXT);
    case Num(n) =>
      NumberReads(c, o, n);
      R.NotLiteral(c, o);
    case Str(chars) =>
      StringReads(c, o, chars);
      R.NotLiteral(c, o);
  }

  lemma {:induction false} ArrReads(c: bytes, o: nat, blank: bytes, elements: seq<Element>, room: nat)
    requires Ok(Arr(blank, elements)) && NestsWithin(Value(Arr(blank, elements)), room)
    requires TextAt(c, o, Text(Arr(blank, elements)))
    ensures R.Read(ParseValue(c, o, room), Value(Arr(blank, elements)), o + |Text(Arr(blank, elements))|)
    decreases elements, 3, 0
  {
    hide ParseBracketed, ParseValue, Listed, AgreesFrom, Text, Value, NestsWithin, Reads;
    ArrText(blank, elements);
    ArrValue(blank, elements);
    ArrNests(elements, room);
    var inner := if elements == [] then blank else Listed(ElementItems(elements), 0);
    var z := BracketsAt(c, o, LBRACKET, inner, RBRACKET);
    if elements == [] {
      WhiteIsBlank(c, o + 1, blank);
      R.EmptyBracketed(c, o, z, ValueParser(c, room - 1), RBRACKET);
    } else {
      ElementsRead(c, o + 1, elements, 0, room - 1);
      ElementsOk(elements);
      BracketsRead(c, o, ElementItems(elements), ValueParser(c, room - 1), ElementValues(elements), RBRACKET);
    }
    R.ArrayFromList(c, o, room, ElementValues(elements), z + 1);
  }

  lemma ArrNests(elements: seq<Element>, room: nat)
    requires forall k :: 0 <= k < |elements| ==> Ok(elements[k].value)
    requires NestsWithin(Array(ElementValues(elements)), room)
    ensures room > 0 && forall k :: 0 <= k < |elements| ==> NestsWithin(Value(elements[k].value), room - 1)
  {
    forall k | 0 <= k < |elements| ensures NestsWithin(Value(elements[k].value), room - 1) {
      assert ElementValues(elements)[k] == Value(elements[k].value);
    }
  }

  /** What lies between two brackets. */
  lemma BracketsAt(c: bytes, o: nat, open: byte, inner: bytes, close: byte) returns (z: nat)
    requires TextAt(c, o, [open] + inner + [close])
    ensures z == o + 1 + |inner| < |c| && c[o] == open && TextAt(c, o + 1, inner) && c[z] == close
  {
    hide AgreesFrom;
    z := o + 1 + |inner|;
    TextAtSplit(c, o, [open] + inner, [close]);
    TextAtSplit(c, o, [open], inner);
    TextAtByte(c, o, [open], 0);
    TextAtByte(c, z, [close], 0);
  }

  lemma ElementsOk(elements: seq<Element>)
    requires forall k :: 0 <= k < |elements| ==>
               IsBlank(elements[k].before) && IsBlank(elements[k].after) && Ok(elements[k].value)
    ensures forall k :: 0 <= k < |elements| ==> ItemOk(ElementItems(elements)[k])
  {
    forall k | 0 <= k < |elements| ensures ItemOk(ElementItems(elements)[k]) { TextStarts(elements[k].value); }
  }

  lemma {:induction false} ElementsRead(c: bytes, q: nat, elements: seq<Element>, i: nat, room: nat)
    requires forall k :: 0 <= k < |elements| ==>
               IsBlank(elements[k].before) && IsBlank(elements[k].after) && Ok(elements[k].value)
    requires forall k :: 0 <= k < |elements| ==> NestsWithin(Value(elements[k].value), room)
    requires TextAt(c, q, Listed(ElementItems(elements), i))
    requires q + |Listed(ElementItems(elements), i)| < |c| && c[q + |Listed(ElementItems(elements), i)|] == RBRACKET
    ensures Reads(ValueParser(c, room), q, ElementItems(elements), i, ElementValues(elements))
    decreases elements, 2, |elements| - i
  {
    hide AgreesFrom, Listed, ParseValue, Value, Text, NestsWithin, Ok, ItemOk, IsBlank;
    if i < |elements| {
      ElementsOk(elements);
      assert ItemOk(ElementItems(elements)[i]);
      var s, e, stop := ItemLayout(c, q, ElementItems(elements), i, RBRACKET);
      assert ElementValues(elements)[i] == Value(elements[i].value);
      EndIsLongest(c, s, e);
      ValueReads(c, s, elements[i].value, room);
      if i + 1 < |elements| {
        ElementsRead(c, stop + 1, elements, i + 1, room);
      }
    }
  }

  lemma {:induction false} ObjReads(c: bytes, o: nat, blank: bytes, entries: seq<Entry>, room: nat)
    requires Ok(Obj(blank, entries)) && NestsWithin(Value(Obj(blank, entries)), room)
    requires TextAt(c, o, Text(Obj(blank, entries)))
    ensures R.Read(ParseValue(c, o, room), Value(Obj(blank, entries)), o + |Text(Obj(blank, entries))|)
    decreases entries, 3, 0
  {
    hide ParseBracketed, ParseValue, Listed, AgreesFrom, Text, Value, NestsWithin, Reads;
    ObjText(blank, entries);
    ObjValue(blank, entries);
    ObjNests(entries, room);
    var inner := if entries == [] then blank else Listed(EntryItems(entries), 0);
    var z := BracketsAt(c, o, LBRACE, inner, RBRACE);
    if entries == [] {
      WhiteIsBlank(c, o + 1, blank);
      R.EmptyBracketed(c, o, z, MemberParser(c, room - 1), RBRACE);
    } else {
      EntriesRead(c, o + 1, entries, 0, room - 1);
      EntriesOk(entries);
      BracketsRead(c, o, EntryItems(entries), MemberParser(c, room - 1), EntryValues(entries), RBRACE);
    }
    R.ObjectFromList(c, o, room, EntryValues(entries), z + 1);
  }

  lemma ObjNests(entries: seq<Entry>, room: nat)
    requires forall k :: 0 <= k < |entries| ==> StringOk(entries[k].key) && Ok(entries[k].value)
    requires NestsWithin(Object(EntryValues(entries)), room)
    ensures room > 0 && forall k :: 0 <= k < |entries| ==> NestsWithin(Value(entries[k].value), room - 1)
  {
    forall k | 0 <= k < |entries| ensures NestsWithin(Value(entries[k].value), room - 1) {
      assert EntryValues(entries)[k].value == Value(entries[k].value);
    }
  }

  /** The entry's parts are in order. */
  ghost predicate EntryOk(e: Entry) {
    && IsBlank(e.before) && IsBlank(e.beforeColon) && IsBlank(e.afterColon) && IsBlank(e.after)
    && StringOk(e.key) && Ok(e.value)
  }

  lemma EntriesOk(entries: seq<Entry>)
    requires forall k :: 0 <= k < |entries| ==> EntryOk(entries[k])
    ensures forall k :: 0 <= k < |entries| ==> ItemOk(EntryItems(entries)[k])
  {
    forall k | 0 <= k < |entries| ensures ItemOk(EntryItems(entries)[k]) {
      assert EntryText(entries[k])[0] == QUOTE;
    }
  }

  lemma {:induction false} EntriesRead(c: bytes, q: nat, entries: seq<Entry>, i: nat, room: nat)
    requires forall k :: 0 <= k < |entries| ==> EntryOk(entries[k]) && StringOk(entries[k].key) && Ok(entries[k].value)
    requires forall k :: 0 <= k < |entries| ==> NestsWithin(Value(entries[k].value), room)
    requires TextAt(c, q, Listed(EntryItems(entries), i))
    requires q + |Listed(EntryItems(entries), i)| < |c| && c[q + |Listed(EntryItems(entries), i)|] == RBRACE
    ensures Reads(MemberParser(c, room), q, EntryItems(entries), i, EntryValues(entries))
    decreases entries, 2, |entries| - i
  {
    hide AgreesFrom, Listed, ParseMember, EntryText, Value, CharsBytes, NestsWithin, Ok, EntryOk, ItemOk;
    hide IsBlank, CString, CharsOk, Text, StringOk, R.Blank, R.EndsNumber;
    if i < |entries| {
      EntriesOk(entries);
      assert ItemOk(EntryItems(entries)[i]);
      var s, e, stop := ItemLayout(c, q, EntryItems(entries), i, RBRACE);
      assert EntryValues(entries)[i] ==
             Member(CString(CharsBytes(entries[i].key)), Value(entries[i].value));
      EntryReads(c, s, entries[i], room);
      if i + 1 < |entries| {
        EntriesRead(c, stop + 1, entries, i + 1, room);
      }
    }
  }

  /** Where key, colon and value of an entry lie. */
  lemma EntryLayout(c: bytes, k: nat, e: Entry) returns (n: nat, q: nat, w: nat)
    requires EntryOk(e) && TextAt(c, k, EntryText(e))
    ensures TextAt(c, k, StringText(e.key)) && n == k + |StringText(e.key)| && R.Blank(c, n, q) && n <= q < |c|
    ensures c[q] == COLON && R.Blank(c, q + 1, w) && w + |Text(e.value)| == k + |EntryText(e)| <= |c|
    ensures TextAt(c, w, Text(e.value)) && w < |c| && c[w] > 32
  {
    hide AgreesFrom, StringText, Text, IsBlank, Ok;
    n := k + |StringText(e.key)|;
    q := n + |e.beforeColon|;
    w := q + 1 + |e.afterColon|;
    TextAtSplit(c, k, StringText(e.key) + ColonPart(e), Text(e.value));
    TextAtSplit(c, k, StringText(e.key), ColonPart(e));
    TextAtSplit(c, n, e.beforeColon + [COLON], e.afterColon);
    TextAtSplit(c, n, e.beforeColon, [COLON]);
    TextAtByte(c, q, [COLON], 0);
    WhiteIsBlank(c, n, e.beforeColon);
    WhiteIsBlank(c, q + 1, e.afterColon);
    TextStarts(e.value);
    TextAtByte(c, w, Text(e.value), 0);
  }

  lemma MemberReads(c: bytes, k: nat, n: nat, q: nat, w: nat, room: nat, key: bytes, v: Json, e: nat)
    requires R.Read(ParseString(c, k), key, n) && R.Blank(c, n, q) && q < |c| && c[q] == COLON
    requires R.Blank(c, q + 1, w) && w < |c| && c[w] > 32 && R.Read(ParseValue(c, w, room), v, e)
    ensures R.Read(ParseMember(c, k, room), Member(key, v), e)
  {
    hide ParseString, ParseValue, Skip;
    R.SkipBlank(c, n, q);
    R.SkipBlank(c, q + 1, w);
  }

  lemma {:induction false} EntryReads(c: bytes, k: nat, e: Entry, room: nat)
    requires EntryOk(e) && NestsWithin(Value(e.value), room)
    requires TextAt(c, k, EntryText(e)) && R.EndsNumber(c, k + |EntryText(e)|)
    ensures R.Read(ParseMember(c, k, room), Member(CString(CharsBytes(e.key)), Value(e.value)), k + |EntryText(e)|)
    decreases e, 1, 0
  {
    hide ParseMember, ParseString, ParseValue, AgreesFrom, EntryText, Text, StringText, CharsBytes;
    var n, q, w := EntryLayout(c, k, e);
    StringReads(c, k, e.key);
    EndIsLongest(c, w, k + |EntryText(e)|);
    ValueReads(c, w, e.value, room);
    MemberReads(c, k, n, q, w, room, CString(CharsBytes(e.key)), Value(e.value), w + |Text(e.value)|);
  }

  /** A byte-order mark, if there is one, blanks, and a value. */
  function DocumentText(mark: bool, before: bytes, s: Syntax): bytes {
    (if mark then BOM else []) + (before + Text(s))
  }

  lemma DocumentReads(c: bytes, mark: bool, before: bytes, s: Syntax)
    requires IsBlank(before) && Ok(s) && NestsWithin(Value(s), NESTING_LIMIT) && (mark ==> |c| > 4)
    requires var e := |DocumentText(mark, before, s)|;
             TextAt(c, 0, DocumentText(mark, before, s)) && (s.Num? ==> Longest(c, e - |Text(s)|, e))
    ensures ParseWithLength(c) == Some(Parsed(Value(s), |DocumentText(mark, before, s)|))
  {
    hide AgreesFrom, ParseValue, Skip, Text, Longest;
    var bom: bytes := if mark then BOM else [];
    var o := |bom| + |before|;
    TextAtSplit(c, 0, bom, before + Text(s));
    TextAtSplit(c, |bom|, before, Text(s));
    TextStarts(s);
    TextAtByte(c, o, Text(s), 0);
    TextAtByte(c, |bom|, before + Text(s), 0);
    WhiteIsBlank(c, |bom|, before);
    if !mark { R.NotText(c, 0, BOM); }
    R.SkipBlank(c, |bom|, o);
    ValueReads(c, o, s, NESTING_LIMIT);
  }

  lemma TextIsTaken(before: bytes, s: Syntax, after: bytes)
    requires IsBlank(before) && Ok(s) && NestsWithin(Value(s), NESTING_LIMIT) && R.EndsNumber(after, 0)
    ensures ParseWithLength(before + Text(s) + after) == Some(Parsed(Value(s), |before| + |Text(s)|))
  {
    hide AgreesFrom, ParseWithLength, Text, Longest, Ok, Value, NestsWithin, IsBlank, IsNumberByte;
    var t, e := before + Text(s), |before| + |Text(s)|;
    assert DocumentText(false, before, s) == t;
    TextAtSlice(t + after, 0, t);
    EndIsLongest(t + after, |before|, e);
    DocumentReads(t + after, false, before, s);
  }

  lemma BlankEnds(t: bytes)
    requires IsBlank(t)
    ensures R.EndsNumber(t, 0) && R.EndsNumber(t + [NUL], 0)
  {
  }

  /**
   * Every such text, with white space wherever it may stand, is accepted and taken for the value it denotes, if
   * its containers nest at most 1000 deep. The parser stops right behind the value, whether the text is counted or
   * a C string.
   */
  lemma TextsAreTaken(before: bytes, s: Syntax, after: bytes)
    requires IsBlank(before) && Ok(s) && IsBlank(after) && NestsWithin(Value(s), NESTING_LIMIT)
    ensures ParseWithLength(before + Text(s) + after) == Some(Parsed(Value(s), |before| + |Text(s)|))
    ensures Parse(before + Text(s) + after) == Some(Parsed(Value(s), |before| + |Text(s)|))
  {
    hide ParseWithLength, Text, Ok, Value, NestsWithin, IsBlank, R.EndsNumber;
    BlankEnds(after);
    TextIsTaken(before, s, after);
    TextIsTaken(before, s, after + [NUL]);
    assert before + Text(s) + (after + [NUL]) == before + Text(s) + after + [NUL];
  }
}
