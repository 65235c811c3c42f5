/** Replacing line breaks by spaces leaves the meaning of a JSON text unchanged. */
module JsonFlatten {
  import opened Bytes
  import Decimal
  import opened JsonText
  import opened JsonGrammar
  import R = FramingRoundTrip
  import Utf

  // ---------------------------------------------------------------- where strings are

  datatype Lexical = Out | In | Escaped

  function Next(state: Lexical, b: byte): Lexical {
    match state
    case Out => if b == QUOTE then In else Out
    case In => if b == QUOTE then Out else if b == BACKSLASH then Escaped else In
    case Escaped => In
  }

  /** Is offset `i` outside every string, inside one, or behind a backslash in one? */
  function State(c: bytes, i: nat): Lexical
    requires i <= |c|
  {
    if i == 0 then Out else Next(State(c, i - 1), c[i - 1])
  }

  predicate IsBreak(b: byte) {
    b == CR || b == LF
  }

  /** No string holds a raw line break. */
  ghost predicate BreaksOutside(c: bytes) {
    forall i :: 0 <= i < |c| && IsBreak(c[i]) ==> State(c, i) == Out
  }

  /** `f` is `c` with its line breaks replaced. */
  ghost predicate Flat(c: bytes, f: bytes) {
    |f| == |c| && forall k :: 0 <= k < |c| ==> f[k] == R.FlatByte(c[k])
  }

  lemma {:induction false} StaysOut(c: bytes, a: nat, b: nat)
    requires a <= b <= |c| && State(c, a) == Out && forall k :: a <= k < b ==> c[k] != QUOTE
    ensures State(c, b) == Out
    decreases b
  {
    if a < b { StaysOut(c, a, b - 1); }
  }

  // ---------------------------------------------------------------- breaks a string keeps

  /**
   * The string body `c[i..e]` has a raw line break that its value keeps: none behind a NUL, raw or escaped,
   * which ends the C string.
   */
  ghost predicate KeptBreak(c: bytes, i: nat, e: nat)
    requires i <= e + 1 <= |c|
    decreases e + 1 - i
  {
    if i >= e then false
    else if c[i] != BACKSLASH then c[i] != NUL && (IsBreak(c[i]) || KeptBreak(c, i + 1, e))
    else if c[i + 1] == Utf.LETTER_U then
      var literal := Utf.LiteralAt(c, i, e);
      literal.Some? && literal.value.codePoint != 0 && KeptBreak(c, i + literal.value.length, e)
    else KeptBreak(c, i + 2, e)
  }

  /** The string literal opened at `o` has such a line break. */
  ghost predicate Keeps(c: bytes, o: nat)
    requires o < |c|
  {
    ClosingQuote(c, o + 1).Some? && KeptBreak(c, o + 1, ClosingQuote(c, o + 1).value)
  }

  /** No string literal opened in `c[a..b]` keeps a raw line break. */
  ghost predicate Clean(c: bytes, a: nat, b: nat)
    requires b <= |c|
    decreases b - a
  {
    a < b ==> !(State(c, a) == Out && c[a] == QUOTE && Keeps(c, a)) && Clean(c, a + 1, b)
  }

  lemma {:induction false} CleanIff(c: bytes, a: nat, b: nat)
    requires b <= |c|
    ensures Clean(c, a, b) <==> forall o :: a <= o < b && State(c, o) == Out && c[o] == QUOTE ==> !Keeps(c, o)
    decreases b - a
  {
    if a < b { CleanIff(c, a + 1, b); }
  }

  lemma {:induction false} CleanJoin(c: bytes, a: nat, b: nat, d: nat)
    requires a <= b <= d <= |c|
    ensures Clean(c, a, d) <==> Clean(c, a, b) && Clean(c, b, d)
    decreases b - a
  {
    if a < b { CleanJoin(c, a + 1, b, d); }
  }

  lemma {:induction false} CleanThrough(c: bytes, a: nat, b: nat)
    requires a <= b <= |c| && forall k :: a <= k < b ==> c[k] != QUOTE || State(c, k) != Out
    ensures Clean(c, a, b)
    decreases b - a
  {
    if a < b { CleanThrough(c, a + 1, b); }
  }

  // ---------------------------------------------------------------- white space and words

  lemma {:induction false} VisibleFlat(c: bytes, f: bytes, o: nat)
    requires Flat(c, f) && o <= |c|
    ensures Visible(f, o) == Visible(c, o)
    ensures forall k :: o <= k < Visible(c, o) ==> c[k] <= 32
    decreases |c| - o
  {
    if o < |c| && c[o] <= 32 { VisibleFlat(c, f, o + 1); }
  }

  lemma SkipFlat(c: bytes, f: bytes, o: nat)
    requires Flat(c, f) && o <= |c| && State(c, o) == Out
    ensures Skip(f, o) == Skip(c, o) && State(c, Skip(c, o)) == Out && Clean(c, o, Skip(c, o))
  {
    VisibleFlat(c, f, o);
    StaysOut(c, o, Skip(c, o));
    CleanThrough(c, o, Skip(c, o));
  }

  /** A text without line breaks and quotes is found in one where it is found in the other. */
  lemma TextFlat(c: bytes, f: bytes, o: nat, t: bytes)
    requires Flat(c, f) && forall k :: 0 <= k < |t| ==> t[k] > 32 && t[k] != QUOTE
    ensures TextAt(f, o, t) <==> TextAt(c, o, t)
    ensures TextAt(c, o, t) && State(c, o) == Out ==> State(c, o + |t|) == Out && Clean(c, o, o + |t|)
  {
    if TextAt(c, o, t) {
      forall k | 0 <= k < |t| ensures f[o + k] == t[k] && c[o + k] == t[k] { TextAtByte(c, o, t, k); }
      AgreesIf(f, o, t, 0);
      if State(c, o) == Out {
        forall j | o <= j < o + |t| ensures c[j] != QUOTE { TextAtByte(c, o, t, j - o); }
        StaysOut(c, o, o + |t|);
        CleanThrough(c, o, o + |t|);
      }
    }
    if TextAt(f, o, t) {
      forall k | 0 <= k < |t| ensures c[o + k] == t[k] { TextAtByte(f, o, t, k); }
      AgreesIf(c, o, t, 0);
    }
  }

  // ---------------------------------------------------------------- strings

  lemma {:induction false} ClosingQuoteFlat(c: bytes, f: bytes, i: nat)
    requires Flat(c, f)
    ensures ClosingQuote(f, i) == ClosingQuote(c, i)
    decreases |c| - i
  {
    if i < |c| && c[i] != QUOTE {
      if c[i] == BACKSLASH {
        if i + 1 < |c| { ClosingQuoteFlat(c, f, i + 2); }
      } else {
        ClosingQuoteFlat(c, f, i + 1);
      }
    }
  }

  /** Up to its closing quote a string is inside, and behind it outside. */
  lemma {:induction false} InsideString(c: bytes, i: nat, e: nat)
    requires i <= |c| && State(c, i) == In && ClosingQuote(c, i) == Some(e)
    ensures State(c, e + 1) == Out
    ensures forall k :: i <= k <= e ==> State(c, k) != Out
    decreases |c| - i
  {
    assert State(c, i + 1) == Next(In, c[i]);
    if c[i] == BACKSLASH {
      assert State(c, i + 2) == In;
      InsideString(c, i + 2, e);
    } else if c[i] != QUOTE {
      InsideString(c, i + 1, e);
    }
  }

  lemma {:induction false} HexFlat(c: bytes, f: bytes, i: nat, k: nat)
    requires Flat(c, f) && i + k <= |c|
    ensures Utf.HexValue(f, i, k) == Utf.HexValue(c, i, k)
  {
    if k > 0 { HexFlat(c, f, i, k - 1); }
  }

  lemma LiteralFlat(c: bytes, f: bytes, i: nat, e: nat)
    requires Flat(c, f) && i <= e <= |c|
    ensures Utf.LiteralAt(f, i, e) == Utf.LiteralAt(c, i, e)
  {
    if e - i >= 6 { HexFlat(c, f, i + 2, 4); }
    if e - i >= 12 { HexFlat(c, f, i + 8, 4); }
  }

  lemma {:induction false} CStringAppend(a: bytes, b: bytes)
    ensures CString(a + b) == if NUL in a then CString(a) else a + CString(b)
  {
    if a == [] {
      assert a + b == b;
    } else {
      assert (a + b)[1..] == a[1..] + b;
      CStringAppend(a[1..], b);
    }
  }

  /** One token of a string, with bodies `u` and `v` behind it. */
  lemma TokenAgrees(x: bytes, y: bytes, u: bytes, v: bytes)
    requires |x| == |y| && (NUL in x ==> x == y) && (NUL in y ==> x == y)
    ensures CString(x + u) == CString(y + v) <==> x == y && (NUL in x || CString(u) == CString(v))
  {
    CStringAppend(x, u);
    CStringAppend(y, v);
    if NUL !in x && NUL !in y {
      var p, q := x + CString(u), y + CString(v);
      assert p[..|x|] == x && q[..|x|] == y && p[|x|..] == CString(u) && q[|x|..] == CString(v);
    }
  }

  lemma EncodeHasNul(cp: nat)
    requires cp <= 0x10FFFF
    ensures NUL in Utf.Encode(cp) <==> cp == 0
  {
  }

  /** What both readers make of a string body: they fail alike, or differ exactly by a line break kept. */
  ghost predicate BodiesAgree(c: bytes, i: nat, e: nat, r: Option<bytes>, s: Option<bytes>)
    requires i <= e + 1 <= |c|
  {
    (r.Some? <==> s.Some?) && (r.Some? ==> (CString(s.value) == CString(r.value) <==> !KeptBreak(c, i, e)))
  }

  lemma {:induction false} UnescapeFlat(c: bytes, f: bytes, i: nat, e: nat)
    requires Flat(c, f) && i <= e + 1 <= |c|
    ensures BodiesAgree(c, i, e, Unescape(c, i, e), Unescape(f, i, e))
    decreases e + 1 - i
  {
    if i < e {
      if c[i] != BACKSLASH {
        UnescapeFlat(c, f, i + 1, e);
        var u, v := Unescape(c, i + 1, e), Unescape(f, i + 1, e);
        if u.Some? { TokenAgrees([c[i]], [f[i]], u.value, v.value); }
      } else if c[i + 1] == Utf.LETTER_U {
        LiteralFlat(c, f, i, e);
        var literal := Utf.LiteralAt(c, i, e);
        if literal.Some? { EscapeFlat(c, f, i, e, literal.value); }
      } else {
        UnescapeFlat(c, f, i + 2, e);
        var b, u, v := ReadEscape(c[i + 1]), Unescape(c, i + 2, e), Unescape(f, i + 2, e);
        assert b == ReadEscape(f[i + 1]);
        if b.Some? && u.Some? { TokenAgrees([b.value], [b.value], u.value, v.value); }
      }
    }
  }

  lemma {:induction false} EscapeFlat(c: bytes, f: bytes, i: nat, e: nat, l: Utf.Literal)
    requires Flat(c, f) && i < e < |c| && c[i] == BACKSLASH && c[i + 1] == Utf.LETTER_U
    requires Utf.LiteralAt(c, i, e) == Some(l) == Utf.LiteralAt(f, i, e)
    ensures BodiesAgree(c, i, e, Unescape(c, i, e), Unescape(f, i, e))
    decreases e + 1 - i, 0
  {
    UnescapeFlat(c, f, i + l.length, e);
    var x, u, v := Utf.Encode(l.codePoint), Unescape(c, i + l.length, e), Unescape(f, i + l.length, e);
    EncodeHasNul(l.codePoint);
    assert Unescape(c, i, e) == Prepend(x, u) && Unescape(f, i, e) == Prepend(x, v);
    if u.Some? { TokenAgrees(x, x, u.value, v.value); }
  }

  /**
   * The readers succeed alike, leave off at the same place outside strings, and give the same value exactly
   * if no string literal between here and there keeps a raw line break.
   */
  ghost predicate Agree<T>(c: bytes, o: nat, r: Option<Parsed<T>>, s: Option<Parsed<T>>) {
    && (r.Some? <==> s.Some?)
    && (r.Some? ==>
          && o <= r.value.next <= |c| && s.value.next == r.value.next && State(c, r.value.next) == Out
          && (s.value.value == r.value.value <==> Clean(c, o, r.value.next)))
  }

  /** A string literal read from its pieces. */
  lemma StringFromParts(c: bytes, o: nat, e: nat, body: Option<bytes>)
    requires o < |c| && c[o] == QUOTE && ClosingQuote(c, o + 1) == Some(e) && body == Unescape(c, o + 1, e)
    ensures ParseString(c, o) == if body.None? then None else Some(Parsed(CString(body.value), e + 1))
  {
  }

  lemma NoString(c: bytes, o: nat)
    requires o < |c| ==> c[o] != QUOTE || ClosingQuote(c, o + 1).None?
    ensures ParseString(c, o).None?
  {
  }

  /** In a literal only its own opening quote counts. */
  lemma CleanString(c: bytes, o: nat, e: nat)
    requires o < e < |c| && State(c, o) == Out && c[o] == QUOTE && ClosingQuote(c, o + 1) == Some(e)
    ensures State(c, e + 1) == Out
    ensures Clean(c, o, e + 1) <==> !KeptBreak(c, o + 1, e)
  {
    assert State(c, o + 1) == In;
    InsideString(c, o + 1, e);
    CleanThrough(c, o + 1, e + 1);
    assert Keeps(c, o) <==> KeptBreak(c, o + 1, e);
  }

  /** Two readings of the literal closed at `e`, from what they make of its body. */
  lemma LiteralsAgree(
      c: bytes, o: nat, e: nat, r: Option<bytes>, s: Option<bytes>, p: Option<Parsed<bytes>>, q: Option<Parsed<bytes>>)
    requires o < e < |c| && BodiesAgree(c, o + 1, e, r, s)
    requires State(c, e + 1) == Out && (Clean(c, o, e + 1) <==> !KeptBreak(c, o + 1, e))
    requires p == if r.None? then None else Some(Parsed(CString(r.value), e + 1))
    requires q == if s.None? then None else Some(Parsed(CString(s.value), e + 1))
    ensures Agree(c, o, p, q)
  {
  }

  /** The string literal at `o`, which is closed at `e`. */
  lemma ClosedStringFlat(c: bytes, f: bytes, o: nat, e: nat, r: Option<bytes>, s: Option<bytes>)
    requires Flat(c, f) && o < e < |c| && c[o] == f[o] == QUOTE && State(c, o) == Out
    requires ClosingQuote(c, o + 1) == ClosingQuote(f, o + 1) == Some(e)
    requires r == Unescape(c, o + 1, e) && s == Unescape(f, o + 1, e) && BodiesAgree(c, o + 1, e, r, s)
    ensures Agree(c, o, ParseString(c, o), ParseString(f, o))
  {
    StringFromParts(c, o, e, r);
    StringFromParts(f, o, e, s);
    CleanString(c, o, e);
    LiteralsAgree(c, o, e, r, s, ParseString(c, o), ParseString(f, o));
  }

  lemma StringFlat(c: bytes, f: bytes, o: nat)
    requires Flat(c, f) && o <= |c| && State(c, o) == Out
    ensures Agree(c, o, ParseString(c, o), ParseString(f, o))
  {
    if o < |c| && c[o] == QUOTE {
      ClosingQuoteFlat(c, f, o + 1);
      var closing := ClosingQuote(c, o + 1);
      if closing.None? {
        NoString(c, o);
        NoString(f, o);
      } else {
        var e := closing.value;
        UnescapeFlat(c, f, o + 1, e);
        ClosedStringFlat(c, f, o, e, Unescape(c, o + 1, e), Unescape(f, o + 1, e));
      }
    } else {
      NoString(c, o);
      NoString(f, o);
    }
  }

  // ---------------------------------------------------------------- numbers

  lemma {:induction false} NumberRunFlat(c: bytes, f: bytes, o: nat, n: nat)
    requires Flat(c, f) && n <= NUMBER_LIMIT && o + n <= |c|
    ensures NumberRun(f, o, n) == NumberRun(c, o, n)
    ensures forall k :: o + n <= k < o + NumberRun(c, o, n) ==> IsNumberByte(c[k])
    decreases NUMBER_LIMIT - n
  {
    if n < NUMBER_LIMIT && o + n < |c| && IsNumberByte(c[o + n]) { NumberRunFlat(c, f, o, n + 1); }
  }

  lemma {:induction false} DigitsEndFlat(c: bytes, f: bytes, i: nat, e: nat)
    requires Flat(c, f) && i <= e <= |c|
    ensures Decimal.DigitsEnd(f, i, e) == Decimal.DigitsEnd(c, i, e)
    decreases e - i
  {
    if i < e && IsDigit(c[i]) { DigitsEndFlat(c, f, i + 1, e); }
  }

  /** strtod's end, from where its parts end. */
  lemma StrtodParts(c: bytes, o: nat, e: nat, i: nat, j: nat, k: nat, m: nat, q: nat)
    requires o <= e <= |c| && i == SignEnd(c, o, e) && j == Decimal.DigitsEnd(c, i, e)
    requires k == if j < e && c[j] == DOT then Decimal.DigitsEnd(c, j + 1, e) else j
    requires k < e && IsExponent(c[k]) ==> m == SignEnd(c, k + 1, e) && q == Decimal.DigitsEnd(c, m, e)
    ensures StrtodEnd(c, o, e) ==
            if j == i && k <= j + 1 then o else if k < e && IsExponent(c[k]) && q > m then q else k
  {
  }

  lemma StrtodEndFlat(c: bytes, f: bytes, o: nat, e: nat) returns (end: nat)
    requires Flat(c, f) && o <= e <= |c|
    ensures o <= end <= e && end == StrtodEnd(c, o, e)
    ensures end == StrtodEnd(f, o, e)
  {
    hide Decimal.DigitsEnd, StrtodEnd;
    var i := SignEnd(c, o, e);
    DigitsEndFlat(c, f, i, e);
    var j := Decimal.DigitsEnd(c, i, e);
    if j < e && c[j] == DOT { DigitsEndFlat(c, f, j + 1, e); }
    var k := if j < e && c[j] == DOT then Decimal.DigitsEnd(c, j + 1, e) else j;
    var m, q := e, e;
    if k < e && IsExponent(c[k]) {
      m := SignEnd(c, k + 1, e);
      q := Decimal.DigitsEnd(c, m, e);
      DigitsEndFlat(c, f, m, e);
    }
    StrtodParts(c, o, e, i, j, k, m, q);
    StrtodParts(f, o, e, i, j, k, m, q);
    end := StrtodEnd(c, o, e);
  }

  lemma NumberStaysOut(c: bytes, o: nat, e: nat)
    requires o <= e <= |c| && State(c, o) == Out && forall k :: o <= k < e ==> IsNumberByte(c[k])
    ensures State(c, e) == Out && Clean(c, o, e)
  {
    StaysOut(c, o, e);
    CleanThrough(c, o, e);
  }

  /** How many bytes go to strtod, and where it stops. */
  lemma NumberEnds(c: bytes, f: bytes, o: nat) returns (n: nat, e: nat)
    requires Flat(c, f) && o <= |c| && State(c, o) == Out
    ensures o <= e <= o + n <= |c| && n == NumberRun(c, o, 0) == NumberRun(f, o, 0)
    ensures e == StrtodEnd(c, o, o + n) && e == StrtodEnd(f, o, o + n)
    ensures forall k :: o <= k < e ==> IsNumberByte(c[k])
  {
    NumberRunFlat(c, f, o, 0);
    n := NumberRun(c, o, 0);
    e := StrtodEndFlat(c, f, o, o + n);
  }

  /** The number at `o`, if there is one, is the same in both texts. */
  lemma NumberRead(c: bytes, f: bytes, o: nat) returns (v: Json, e: nat)
    requires Flat(c, f) && o <= |c| && State(c, o) == Out
    ensures o <= e <= |c| && State(c, e) == Out && Clean(c, o, e)
    ensures ParseNumber(c, o) == if e == o then None else Some(Parsed(v, e))
    ensures ParseNumber(f, o) == if e == o then None else Some(Parsed(v, e))
  {
    hide NumberOf, ParseNumber, NumberRun, StrtodEnd, State, Clean;
    var n;
    n, e := NumberEnds(c, f, o);
    NumberStaysOut(c, o, e);
    v := Null;
    if e > o {
      assert f[o..e] == c[o..e];
      v := NumberOf(c[o..e]);
    }
    ParseNumberIs(c, o, n, e, v);
    ParseNumberIs(f, o, n, e, v);
  }

  // ---------------------------------------------------------------- lists

  /** Wherever it is asked outside strings, `item` reads in `c` as `other` does in the flattened text. */
  ghost predicate ItemsAgree<T(!new)>(c: bytes, item: nat -> Option<Parsed<T>>, other: nat -> Option<Parsed<T>>) {
    forall q: nat :: q <= |c| && State(c, q) == Out ==> Agree(c, q, item(q), other(q))
  }

  lemma ByteFlat(c: bytes, f: bytes, q: nat, b: byte)
    requires Flat(c, f) && q < |c| && b > 32 && b != QUOTE
    ensures f[q] == b <==> c[q] == b
    ensures c[q] == b && State(c, q) == Out ==> State(c, q + 1) == Out && Clean(c, q, q + 1)
  {
  }

  /** Two readings one behind the other, nothing but clean text between them. */
  lemma CleanChain(c: bytes, a: nat, b: nat, d: nat, e: nat, g: nat)
    requires a <= b <= d <= e <= g <= |c| && Clean(c, a, b) && Clean(c, d, e)
    ensures Clean(c, a, g) <==> Clean(c, b, d) && Clean(c, e, g)
  {
    CleanJoin(c, a, b, g);
    CleanJoin(c, b, d, g);
    CleanJoin(c, d, e, g);
  }

  /** The first item and, behind a comma, the others. */
  lemma ConsAgrees<T(!new)>(
      c: bytes, p: nat, k: nat, q: nat, first: Parsed<T>, other: Parsed<T>,
      rest: Option<Parsed<seq<T>>>, others: Option<Parsed<seq<T>>>)
    requires p <= k <= |c| && first.next <= q < |c| && Clean(c, p, k) && Clean(c, first.next, q + 1)
    requires Agree(c, k, Some(first), Some(other)) && Agree(c, q + 1, rest, others)
    ensures Agree(c, p, Consed(first.value, rest), Consed(other.value, others))
  {
    if rest.Some? {
      CleanChain(c, p, k, first.next, q + 1, rest.value.next);
      var r, s := [first.value] + rest.value.value, [other.value] + others.value.value;
      assert r[0] == first.value && r[1..] == rest.value.value && s[0] == other.value && s[1..] == others.value.value;
    }
  }

  /** The only item, and the closing byte behind it. */
  lemma LastAgrees<T(!new)>(c: bytes, p: nat, k: nat, q: nat, first: Parsed<T>, other: Parsed<T>)
    requires p <= k <= |c| && first.next <= q < |c| && Clean(c, p, k) && Clean(c, first.next, q + 1)
    requires Agree(c, k, Some(first), Some(other)) && State(c, q + 1) == Out
    ensures Agree(c, p, Some(Parsed([first.value], q + 1)), Some(Parsed([other.value], q + 1)))
  {
    CleanChain(c, p, k, first.next, q + 1, q + 1);
    assert [first.value][0] == first.value && [other.value][0] == other.value;
  }

  lemma TurnAgrees<T(!new)>(
      c: bytes, f: bytes, p: nat, k: nat, q: nat, close: byte, first: Option<Parsed<T>>, other: Option<Parsed<T>>,
      rest: Option<Parsed<seq<T>>>, others: Option<Parsed<seq<T>>>)
    requires Flat(c, f) && p <= k <= |c| && Clean(c, p, k) && close > 32 && close != QUOTE
    requires Agree(c, k, first, other)
    requires first.Some? ==> first.value.next <= q <= |c| && State(c, q) == Out && Clean(c, first.value.next, q)
    requires first.Some? && q < |c| && c[q] == COMMA ==> Agree(c, q + 1, rest, others)
    ensures Agree(c, p, Turn(c, q, close, first, rest), Turn(f, q, close, other, others))
  {
    if first.Some? && q < |c| {
      ByteFlat(c, f, q, COMMA);
      ByteFlat(c, f, q, close);
      CleanJoin(c, first.value.next, q, q + 1);
      if c[q] == COMMA {
        ConsAgrees(c, p, k, q, first.value, other.value, rest, others);
      } else if c[q] == close {
        LastAgrees(c, p, k, q, first.value, other.value);
      }
    }
  }

  lemma {:induction false} ListFlat<T(!new)>(
      c: bytes, f: bytes, p: nat, item: nat -> Option<Parsed<T>>, other: nat -> Option<Parsed<T>>, close: byte)
    requires Flat(c, f) && p <= |c| && State(c, p) == Out && close > 32 && close != QUOTE
    requires Advancing(c, item) && Advancing(f, other) && ItemsAgree(c, item, other)
    ensures Agree(c, p, ParseList(c, p, item, close), ParseList(f, p, other, close))
    decreases |c| - p
  {
    hide Skip, ParseList, Turn, Clean;
    SkipFlat(c, f, p);
    var k := Skip(c, p);
    var first, second := item(k), other(k);
    assert Agree(c, k, first, second);
    var q: nat, rest: Option<Parsed<seq<T>>>, others: Option<Parsed<seq<T>>> := k, None, None;
    if first.Some? {
      SkipFlat(c, f, first.value.next);
      q := Skip(c, first.value.next);
      if q < |c| && c[q] == COMMA {
        ByteFlat(c, f, q, COMMA);
        ListFlat(c, f, q + 1, item, other, close);
        rest, others := ParseList(c, q + 1, item, close), ParseList(f, q + 1, other, close);
      }
      assert q < |c| ==> (f[q] == COMMA <==> c[q] == COMMA);
    }
    ListIsTurn(c, p, item, close, q, rest);
    ListIsTurn(f, p, other, close, q, others);
    TurnAgrees(c, f, p, k, q, close, first, second, rest, others);
  }

  lemma BracketedIs<T(!new)>(
      c: bytes, o: nat, item: nat -> Option<Parsed<T>>, close: byte, p: nat, r: Option<Parsed<seq<T>>>)
    requires o < |c| && p == Skip(c, o + 1) && Advancing(c, item) && (p < |c| ==> r == ParseList(c, p, item, close))
    ensures ParseBracketed(c, o, item, close) == Bracketed(c, p, close, r)
  {
  }

  /** A bracketed list from the first byte in it at `p`, and the list there. */
  function Bracketed<T>(c: bytes, p: nat, close: byte, r: Option<Parsed<seq<T>>>): Option<Parsed<seq<T>>> {
    if p >= |c| then None else if c[p] == close then Some(Parsed([], p + 1)) else r
  }

  lemma BracketsAgree<T(!new)>(
      c: bytes, f: bytes, o: nat, p: nat, close: byte, r: Option<Parsed<seq<T>>>, s: Option<Parsed<seq<T>>>)
    requires Flat(c, f) && o <= p <= |c| && Clean(c, o, p) && State(c, p) == Out && close > 32 && close != QUOTE
    requires p < |c| ==> Agree(c, p, r, s)
    ensures Agree(c, o, Bracketed(c, p, close, r), Bracketed(f, p, close, s))
  {
    if p < |c| {
      ByteFlat(c, f, p, close);
      CleanJoin(c, o, p, if c[p] == close then p + 1 else if r.Some? then r.value.next else p);
    }
  }

  lemma BracketedFlat<T(!new)>(
      c: bytes, f: bytes, o: nat, item: nat -> Option<Parsed<T>>, other: nat -> Option<Parsed<T>>, close: byte)
    requires Flat(c, f) && o < |c| && State(c, o + 1) == Out && c[o] != QUOTE && close > 32 && close != QUOTE
    requires Advancing(c, item) && Advancing(f, other) && ItemsAgree(c, item, other)
    ensures Agree(c, o, ParseBracketed(c, o, item, close), ParseBracketed(f, o, other, close))
  {
    hide Skip, ParseList, ParseBracketed, Bracketed, Clean;
    SkipFlat(c, f, o + 1);
    var p := Skip(c, o + 1);
    CleanThrough(c, o, o + 1);
    CleanJoin(c, o, o + 1, p);
    ListFlat(c, f, p, item, other, close);
    var r, s := ParseList(c, p, item, close), ParseList(f, p, other, close);
    BracketedIs(c, o, item, close, p, r);
    BracketedIs(f, o, other, close, p, s);
    BracketsAgree(c, f, o, p, close, r, s);
  }

  // ---------------------------------------------------------------- values

  /** A list makes a value that is equal just when the list is. */
  lemma Wrapped<T, U>(c: bytes, o: nat, r: Option<Parsed<T>>, s: Option<Parsed<T>>, r': Option<Parsed<U>>,
      s': Option<Parsed<U>>)
    requires Agree(c, o, r, s) && (r'.Some? <==> r.Some?) && (s'.Some? <==> s.Some?)
    requires r.Some? ==> r'.value.next == r.value.next && s'.value.next == s.value.next
    requires r.Some? ==> (s'.value.value == r'.value.value <==> s.value.value == r.value.value)
    ensures Agree(c, o, r', s')
  {
  }

  lemma {:induction false} ArrayFlat(c: bytes, f: bytes, o: nat, room: nat)
    requires Flat(c, f) && o < |c| && State(c, o) == Out && c[o] == LBRACKET
    ensures Agree(c, o, ParseArray(c, o, room), ParseArray(f, o, room))
    decreases room, 0
  {
    hide ParseBracketed, ParseValue, Clean;
    if room > 0 {
      var item, other := ValueParser(c, room - 1), ValueParser(f, room - 1);
      forall q: nat | q <= |c| && State(c, q) == Out ensures Agree(c, q, item(q), other(q)) {
        ValueSame(c, f, q, room - 1);
      }
      BracketedFlat(c, f, o, item, other, RBRACKET);
      Wrapped(c, o, ParseBracketed(c, o, item, RBRACKET), ParseBracketed(f, o, other, RBRACKET),
              ParseArray(c, o, room), ParseArray(f, o, room));
    }
  }

  lemma {:induction false} ObjectFlat(c: bytes, f: bytes, o: nat, room: nat)
    requires Flat(c, f) && o < |c| && State(c, o) == Out && c[o] == LBRACE
    ensures Agree(c, o, ParseObject(c, o, room), ParseObject(f, o, room))
    decreases room, 0
  {
    hide ParseBracketed, ParseMember, Clean;
    if room > 0 {
      var item, other := MemberParser(c, room - 1), MemberParser(f, room - 1);
      forall q: nat | q <= |c| && State(c, q) == Out ensures Agree(c, q, item(q), other(q)) {
        MemberFlat(c, f, q, room - 1);
      }
      BracketedFlat(c, f, o, item, other, RBRACE);
      Wrapped(c, o, ParseBracketed(c, o, item, RBRACE), ParseBracketed(f, o, other, RBRACE),
              ParseObject(c, o, room), ParseObject(f, o, room));
    }
  }

  /** Key and value of a member, and what is between them. */
  lemma PairAgrees(c: bytes, k: nat, w: nat, key: Parsed<bytes>, key': Parsed<bytes>, v: Option<Parsed<Json>>,
      v': Option<Parsed<Json>>)
    requires Agree(c, k, Some(key), Some(key')) && key.next <= w && Agree(c, w, v, v')
    requires w <= |c| && Clean(c, key.next, w)
    ensures Agree(c, k,
              if v.Some? then Some(Parsed(Member(key.value, v.value.value), v.value.next)) else None,
              if v'.Some? then Some(Parsed(Member(key'.value, v'.value.value), v'.value.next)) else None)
  {
    if v.Some? {
      CleanJoin(c, k, key.next, v.value.next);
      CleanJoin(c, key.next, w, v.value.next);
    }
  }

  lemma {:induction false} MemberFlat(c: bytes, f: bytes, k: nat, room: nat)
    requires Flat(c, f) && k <= |c| && State(c, k) == Out
    ensures Agree(c, k, ParseMember(c, k, room), ParseMember(f, k, room))
    decreases room, 2
  {
    hide ParseString, ParseValue, Skip, Clean;
    StringFlat(c, f, k);
    var key, key' := ParseString(c, k), ParseString(f, k);
    if key.Some? {
      SkipFlat(c, f, key.value.next);
      var q := Skip(c, key.value.next);
      if q < |c| {
        ByteFlat(c, f, q, COLON);
        if c[q] == COLON {
          SkipFlat(c, f, q + 1);
          var w := Skip(c, q + 1);
          CleanJoin(c, key.value.next, q, w);
          CleanJoin(c, q, q + 1, w);
          ValueSame(c, f, w, room);
          PairAgrees(c, k, w, key.value, key'.value, ParseValue(c, w, room), ParseValue(f, w, room));
        }
      }
    }
  }

  /** A value read in the flattened text. */
  lemma {:induction false} ValueSame(c: bytes, f: bytes, o: nat, room: nat)
    requires Flat(c, f) && o <= |c| && State(c, o) == Out
    ensures Agree(c, o, ParseValue(c, o, room), ParseValue(f, o, room))
    decreases room, 1
  {
    hide ParseString, ParseNumber, ParseArray, ParseObject, State, Clean;
    if o < |c| {
      TextFlat(c, f, o, NULL_TEXT);
      TextFlat(c, f, o, FALSE_TEXT);
      TextFlat(c, f, o, TRUE_TEXT);
      StringFlat(c, f, o);
      var v, e := NumberRead(c, f, o);
      if c[o] == LBRACKET { ArrayFlat(c, f, o, room); }
      if c[o] == LBRACE { ObjectFlat(c, f, o, room); }
    }
  }

  lemma DocumentFlat(c: bytes, f: bytes)
    requires Flat(c, f)
    ensures Agree(c, 0, ParseWithLength(c), ParseWithLength(f))
  {
    if |c| > 0 {
      TextFlat(c, f, 0, BOM);
      var b := BomLength(c);
      assert State(c, b) == Out && Clean(c, 0, b);
      SkipFlat(c, f, b);
      var o := Skip(c, b);
      CleanJoin(c, 0, b, o);
      ValueSame(c, f, o, NESTING_LIMIT);
      var r := ParseValue(c, o, NESTING_LIMIT);
      if r.Some? { CleanJoin(c, 0, o, r.value.next); }
    }
  }

  lemma FlattenIsFlat(t: bytes)
    ensures Flat(t, R.Flatten(t))
  {
    forall k | 0 <= k < |t| ensures R.Flatten(t)[k] == R.FlatByte(t[k]) { R.FlattenAt(t, k); }
  }

  lemma {:induction false} StateOfFront(t: bytes, u: bytes, i: nat)
    requires i <= |t| && t <= u
    ensures State(u, i) == State(t, i)
  {
    if i > 0 { StateOfFront(t, u, i - 1); }
  }

  /**
   * Exactly when flattening keeps the meaning: the text is refused either way, or no string literal of its
   * value keeps a raw line break. Of a counted text and of a C string, whatever follows the value.
   */
  lemma FlattenIff(t: bytes)
    ensures ParseWithLength(R.Flatten(t)) == ParseWithLength(t) <==>
            (ParseWithLength(t).Some? ==> Clean(t, 0, ParseWithLength(t).value.next))
    ensures Parse(R.Flatten(t)) == Parse(t) <==> (Parse(t).Some? ==> Clean(t + [NUL], 0, Parse(t).value.next))
  {
    FlattenIsFlat(t);
    DocumentFlat(t, R.Flatten(t));
    DocumentFlat(t + [NUL], R.Flatten(t) + [NUL]);
  }

  /** Four hexadecimal digits are neither quotes nor backslashes. */
  lemma {:induction false} HexStaysIn(c: bytes, i: nat, k: nat)
    requires i + k <= |c| && Utf.HexValue(c, i, k).Some? && State(c, i) == In
    ensures State(c, i + k) == In && ClosingQuote(c, i) == ClosingQuote(c, i + k)
  {
    if k > 0 {
      HexStaysIn(c, i, k - 1);
      assert State(c, i + k) == Next(In, c[i + k - 1]);
    }
  }

  lemma NonzeroIsHex(c: bytes, i: nat)
    requires i + 4 <= |c| && Utf.Hex4(c, i) != 0
    ensures Utf.HexValue(c, i, 4).Some?
  {
  }

  /** Behind an escape that is not a NUL, the string goes on. */
  lemma LiteralStaysIn(c: bytes, i: nat, e: nat)
    requires i < e < |c| && State(c, i) == In && ClosingQuote(c, i) == Some(e) && c[i] == BACKSLASH
    requires c[i + 1] == Utf.LETTER_U && Utf.LiteralAt(c, i, e).Some? && Utf.LiteralAt(c, i, e).value.codePoint != 0
    ensures var n := i + Utf.LiteralAt(c, i, e).value.length; State(c, n) == In && ClosingQuote(c, n) == Some(e)
  {
    assert State(c, i + 1) == Escaped && State(c, i + 2) == In;
    NonzeroIsHex(c, i + 2);
    HexStaysIn(c, i + 2, 4);
    if Utf.LiteralAt(c, i, e).value.length == 12 {
      assert State(c, i + 7) == Escaped && State(c, i + 8) == In;
      NonzeroIsHex(c, i + 8);
      HexStaysIn(c, i + 8, 4);
    }
  }

  lemma {:induction false} NothingKept(c: bytes, i: nat, e: nat)
    requires BreaksOutside(c) && i <= e < |c| && State(c, i) == In && ClosingQuote(c, i) == Some(e)
    ensures !KeptBreak(c, i, e)
    decreases e - i
  {
    if i < e {
      if c[i] != BACKSLASH {
        assert State(c, i + 1) == Next(In, c[i]);
        NothingKept(c, i + 1, e);
      } else if c[i + 1] == Utf.LETTER_U {
        var literal := Utf.LiteralAt(c, i, e);
        if literal.Some? && literal.value.codePoint != 0 {
          LiteralStaysIn(c, i, e);
          NothingKept(c, i + literal.value.length, e);
        }
      } else {
        assert State(c, i + 1) == Escaped && State(c, i + 2) == In;
        if i + 2 <= e { NothingKept(c, i + 2, e); }
      }
    }
  }

  lemma OutsideIsClean(c: bytes, b: nat)
    requires BreaksOutside(c) && b <= |c|
    ensures Clean(c, 0, b)
  {
    forall o | 0 <= o < b && State(c, o) == Out && c[o] == QUOTE ensures !Keeps(c, o) {
      var closing := ClosingQuote(c, o + 1);
      if closing.Some? {
        assert State(c, o + 1) == In;
        NothingKept(c, o + 1, closing.value);
      }
    }
    CleanIff(c, 0, b);
  }

  /**
   * In particular any text without raw line breaks inside strings parses to the same tree, or is refused
   * alike, after its line breaks are replaced; as a counted text and as a C string.
   */
  lemma FlattenKeepsMeaning(t: bytes)
    requires BreaksOutside(t)
    ensures ParseWithLength(R.Flatten(t)) == ParseWithLength(t)
    ensures Parse(R.Flatten(t)) == Parse(t)
  {
    var c := t + [NUL];
    FlattenIff(t);
    if ParseWithLength(t).Some? { OutsideIsClean(t, ParseWithLength(t).value.next); }
    forall i | 0 <= i < |c| && IsBreak(c[i]) ensures State(c, i) == Out {
      StateOfFront(t, c, i);
    }
    if Parse(t).Some? { OutsideIsClean(c, Parse(t).value.next); }
  }

  /** The shortest text whose meaning changes. */
  lemma BreakInStringMatters()
    ensures var t: bytes := [QUOTE, LF, QUOTE]; !BreaksOutside(t) && Parse(R.Flatten(t)) != Parse(t)
  {
    var t: bytes := [QUOTE, LF, QUOTE];
    var c, f := t + [NUL], R.Flatten(t) + [NUL];
    assert State(t, 1) == In && IsBreak(t[1]);
    R.FlattenAt(t, 0);
    R.FlattenAt(t, 1);
    R.FlattenAt(t, 2);
    OneByteString(c, LF);
    OneByteString(f, SPACE);
  }

  lemma OneByteString(c: bytes, b: byte)
    requires |c| == 4 && c[0] == QUOTE && c[1] == b && c[2] == QUOTE && c[3] == NUL && (b == LF || b == SPACE)
    ensures ParseWithLength(c).Some? && ParseWithLength(c).value.value == String([b])
  {
    assert ClosingQuote(c, 2) == Some(2) == ClosingQuote(c, 1);
    assert [b] + [] == [b] && Unescape(c, 2, 2) == Some([]);
    assert Unescape(c, 1, 2) == Some([b]);
    CStringWhole([b]);
    assert Skip(c, 0) == 0;
  }
}
