/** Encoding messages in either framing, and reading the encoded stream back. */
module FramingRoundTrip {
  import opened Bytes
  import Decimal
  import opened Framing

  // ---------------------------------------------------------------- encoding

  /** "Content-Length: " */
  const LABEL: bytes :=
    [0x43, 0x6F, 0x6E, 0x74, 0x65, 0x6E, 0x74, 0x2D, 0x4C, 0x65, 0x6E, 0x67, 0x74, 0x68, 0x3A, SPACE]
  const CRLF: bytes := [CR, LF]

  function LengthLine(n: nat): bytes {
    LABEL + Decimal.Digits(n) + CRLF
  }

  function Header(n: nat): bytes {
    LengthLine(n) + CRLF
  }

  function Frame(body: bytes): bytes {
    Header(|body|) + body
  }

  function FlatByte(b: byte): byte {
    if b == LF || b == CR then SPACE else b
  }

  /** `body` with every line break replaced by a space. */
  function Flatten(body: bytes): (r: bytes)
    ensures |r| == |body|
  {
    if body == [] then [] else Flatten(body[..|body| - 1]) + [FlatByte(body[|body| - 1])]
  }

  lemma {:induction false} FlattenAt(body: bytes, k: nat)
    requires k < |body|
    ensures Flatten(body)[k] == FlatByte(body[k])
  {
    if k < |body| - 1 { FlattenAt(body[..|body| - 1], k); }
  }

  function Encoded(kind: Kind, body: bytes): bytes {
    if kind == ContentLength then Frame(body) else Flatten(body) + [LF]
  }

  /** The bytes of a message sequence. */
  function Stream(kind: Kind, bodies: seq<bytes>): bytes {
    if bodies == [] then [] else Encoded(kind, bodies[0]) + Stream(kind, bodies[1..])
  }

  method Encode(kind: Kind, body: bytes) returns (out: array<byte>, n: nat)
    ensures n < out.Length && out[n] == NUL && out[..n] == Encoded(kind, body)
  {
    if kind == ContentLength {
      var header := Header(|body|);
      n := |header| + |body|;
      out := new byte[n + 1];
      forall k | 0 <= k < |header| {
        out[k] := header[k];
      }
      forall k | 0 <= k < |body| {
        out[|header| + k] := body[k];
      }
      out[n] := NUL;
      assert out[..n] == header + body;
    } else {
      n := |body| + 1;
      out := new byte[n + 1];
      var i := 0;
      while i < |body|
        invariant i <= |body| && out[..i] == Flatten(body[..i])
      {
        out[i] := FlatByte(body[i]);
        i := i + 1;
        assert body[..i][..i - 1] == body[..i - 1];
        assert out[..i] == out[..i - 1] + [out[i - 1]];
      }
      assert body[..i] == body;
      out[|body|] := LF;
      out[n] := NUL;
      assert out[..n] == out[..|body|] + [LF];
    }
  }

  // ---------------------------------------------------------------- frames read back

  lemma {:induction false} LineEndIs(s: bytes, a: nat, e: nat)
    requires a <= e <= |s| && (forall k :: a <= k < e ==> s[k] != LF) && (e < |s| ==> s[e] == LF)
    ensures LineEnd(s, a) == e
    decreases e - a
  {
    if a < e { LineEndIs(s, a + 1, e); }
  }

  /** Where the parts of a length line lie. */
  lemma LengthLineParts(s: bytes, a: nat, n: nat)
    requires TextAt(s, a, LengthLine(n))
    ensures TextAt(s, a, LABEL) && TextAt(s, a + 16, Decimal.Digits(n))
    ensures var e := a + 16 + |Decimal.Digits(n)|;
            e + 2 <= |s| && s[e] == CR && s[e + 1] == LF && a + |LengthLine(n)| == e + 2
  {
    var digits := Decimal.Digits(n);
    var e := a + 16 + |digits|;
    TextAtSplit(s, a, LABEL + digits, CRLF);
    TextAtSplit(s, a, LABEL, digits);
    TextAtByte(s, e, CRLF, 0);
    TextAtByte(s, e, CRLF, 1);
  }

  lemma {:induction false} KeyOfLabel(s: bytes, a: nat, n: nat)
    requires TextAt(s, a, LABEL) && n <= |KEY|
    ensures KeyPrefix(s, a, n)
  {
    if n > 0 {
      KeyOfLabel(s, a, n - 1);
      TextAtByte(s, a, LABEL, n - 1);
    }
  }

  lemma {:induction false} DigitsEndIs(s: bytes, i: nat, j: nat, e: nat)
    requires i <= j <= e <= |s| && (forall k :: i <= k < j ==> IsDigit(s[k])) && (j < e ==> !IsDigit(s[j]))
    ensures Decimal.DigitsEnd(s, i, e) == j
    decreases j - i
  {
    if i < j { DigitsEndIs(s, i + 1, j, e); }
  }

  /** The number a length line carries. */
  lemma LengthReadsBack(s: bytes, a: nat, n: nat)
    requires TextAt(s, a, LengthLine(n)) && n < ULONG_RANGE
    ensures var e := a + |LengthLine(n)| - 1;
            e < |s| && Strtoul(s, a + 15, e) == n && HasVisible(s, a + 15, e)
  {
    var digits := Decimal.Digits(n);
    var e := a + 16 + |digits|;
    LengthLineParts(s, a, n);
    TextAtSlice(s, a + 16, digits);
    Decimal.ValueOfDigits(s, a + 16, n);
    TextAtByte(s, a, LABEL, 15);
    assert CSpaceEnd(s, a + 16, e + 1) == a + 16;
    assert CSpaceEnd(s, a + 15, e + 1) == a + 16;
    DigitsEndIs(s, a + 16, e, e + 1);
  }

  /** A length line, or a piece cut from its front, has no newline but the last byte of the line. */
  lemma NoBreakInLine(s: bytes, a: nat, n: nat, k: nat)
    requires k < |LengthLine(n)| && TextAt(s, a, LengthLine(n)[..k])
    ensures forall i :: a <= i < a + k ==> s[i] != LF
  {
    var digits := Decimal.Digits(n);
    var t := LengthLine(n)[..k];
    forall i | a <= i < a + k ensures s[i] != LF {
      TextAtByte(s, a, t, i - a);
      if 16 <= i - a < 16 + |digits| {
        assert t[i - a] == digits[i - a - 16];
      }
    }
  }

  lemma TextAtPrefix(s: bytes, a: nat, t: bytes, k: nat)
    requires TextAt(s, a, t) && k <= |t|
    ensures TextAt(s, a, t[..k])
  {
    assert t == t[..k] + t[k..];
    TextAtSplit(s, a, t[..k], t[k..]);
  }

  lemma TwentyDigits(n: nat)
    requires n < ULONG_RANGE
    ensures |Decimal.Digits(n)| <= 20
  {
    assert Decimal.Pow10(5) == 100000;
    assert Decimal.Pow10(10) == 100000 * Decimal.Pow10(5);
    assert Decimal.Pow10(15) == 100000 * Decimal.Pow10(10);
    assert Decimal.Pow10(20) == 100000 * Decimal.Pow10(15);
    Decimal.DigitsLength(n, 20);
  }

  /** How a reader sees a length line. */
  lemma LengthLineRead(s: bytes, a: nat, n: nat)
    requires TextAt(s, a, LengthLine(n)) && n < ULONG_RANGE
    ensures var e := LineEnd(s, a);
            && e == a + |LengthLine(n)| - 1 && a + 17 < e < |s| && e - a <= 37
            && s[a] == 0x43 && KeyAt(s, a) && !BlankHeader(s, a, e)
            && Strtoul(s, a + 15, e) == n && HasVisible(s, a + 15, e)
  {
    var k := |LengthLine(n)| - 1;
    LengthLineParts(s, a, n);
    TextAtPrefix(s, a, LengthLine(n), k);
    NoBreakInLine(s, a, n, k);
    LineEndIs(s, a, a + k);
    KeyOfLabel(s, a, |KEY|);
    TextAtByte(s, a, LABEL, 0);
    LengthReadsBack(s, a, n);
    TwentyDigits(n);
  }

  /** The two lines of a header: the length line, and the blank line behind it. */
  lemma HeaderLines(s: bytes, a: nat, n: nat)
    requires TextAt(s, a, Header(n)) && n < ULONG_RANGE
    ensures TextAt(s, a, LengthLine(n))
    ensures var e := a + |LengthLine(n)|;
            e + 1 < |s| && s[e] == CR && LineEnd(s, e) == e + 1 && BlankHeader(s, e, e + 1) && e + 2 == a + |Header(n)|
  {
    var e := a + |LengthLine(n)|;
    TextAtSplit(s, a, LengthLine(n), CRLF);
    TextAtByte(s, e, CRLF, 0);
    TextAtByte(s, e, CRLF, 1);
    LineEndIs(s, e, e + 1);
  }

  /** A header at `a` is read whole. */
  lemma HeaderReadsBack(s: bytes, a: nat, n: nat)
    requires TextAt(s, a, Header(n)) && n < ULONG_RANGE
    ensures NextFrame(s, a, false, None) == BodyAt(s, a + |Header(n)|, Some(n))
    ensures HeadersFit(s, a, false)
    ensures KeyAt(s, a) && SkipMarks(s, a) == a
  {
    HeaderLines(s, a, n);
    LengthLineRead(s, a, n);
    var e := LineEnd(s, a);
    assert NextFrame(s, a, false, None) == NextFrame(s, e + 1, true, Some(n));
  }

  /** A frame at `a` is read whole, byte for byte, whatever follows it. */
  lemma FrameReadsBack(s: bytes, a: nat, body: bytes)
    requires TextAt(s, a, Frame(body)) && 0 < |body| <= MAX_MESSAGE
    ensures NextFrame(s, a, false, None) == Step(Some(body), ContentLength, a + |Frame(body)|)
    ensures HeadersFit(s, a, false)
    ensures KeyAt(s, a) && SkipMarks(s, a) == a
  {
    TextAtSplit(s, a, Header(|body|), body);
    HeaderReadsBack(s, a, |body|);
    TextAtSlice(s, a + |Header(|body|)|, body);
  }

  /** Bodies a Content-Length reader accepts. */
  ghost predicate Sendable(bodies: seq<bytes>) {
    forall k :: 0 <= k < |bodies| ==> 0 < |bodies[k]| <= MAX_MESSAGE
  }

  /** A call at a frame returns its body, whether or not the framing was known. */
  lemma NextIsFrame(s: bytes, a: nat, body: bytes)
    requires TextAt(s, a, Frame(body)) && 0 < |body| <= MAX_MESSAGE
    ensures Fits(s, ContentLength, a) && Fits(s, Unknown, a)
    ensures Next(s, ContentLength, a) == Next(s, Unknown, a) == Step(Some(body), ContentLength, a + |Frame(body)|)
  {
    FrameReadsBack(s, a, body);
  }

  /** What a reader does at the first of some frames. */
  lemma FirstFrame(s: bytes, a: nat, bodies: seq<bytes>)
    returns (next: nat)
    requires bodies != [] && 0 < |bodies[0]| <= MAX_MESSAGE && TextAt(s, a, Stream(ContentLength, bodies))
    ensures next == a + |Frame(bodies[0])| && TextAt(s, next, Stream(ContentLength, bodies[1..]))
    ensures next + |Stream(ContentLength, bodies[1..])| == a + |Stream(ContentLength, bodies)|
    ensures Fits(s, ContentLength, a) && Fits(s, Unknown, a)
    ensures Next(s, ContentLength, a) == Next(s, Unknown, a) == Step(Some(bodies[0]), ContentLength, next)
  {
    TextAtSplit(s, a, Frame(bodies[0]), Stream(ContentLength, bodies[1..]));
    NextIsFrame(s, a, bodies[0]);
    next := a + |Frame(bodies[0])|;
  }

  lemma {:induction false} FramesReadBackFrom(s: bytes, a: nat, bodies: seq<bytes>)
    requires Sendable(bodies) && TextAt(s, a, Stream(ContentLength, bodies))
    requires a + |Stream(ContentLength, bodies)| == |s|
    ensures Messages(s, ContentLength, a) == bodies
    ensures AllFit(s, ContentLength, a)
    decreases |bodies|
  {
    if bodies == [] {
      assert LineEnd(s, a) == |s|;
    } else {
      var next := FirstFrame(s, a, bodies);
      FramesReadBackFrom(s, next, bodies[1..]);
    }
  }

  lemma TextAtWhole(s: bytes)
    ensures TextAt(s, 0, s)
  {
    AgreesIf(s, 0, s, 0);
  }

  /** Content-Length framing: a reader of the encoded stream returns the bodies, and detects the framing. */
  lemma FramesReadBack(bodies: seq<bytes>)
    requires Sendable(bodies)
    ensures var s := Stream(ContentLength, bodies);
            && Messages(s, Unknown, 0) == bodies
            && AllFit(s, Unknown, 0)
            && (bodies != [] ==> Next(s, Unknown, 0).kind == ContentLength)
  {
    var s := Stream(ContentLength, bodies);
    TextAtWhole(s);
    if bodies != [] {
      var next := FirstFrame(s, 0, bodies);
      FramesReadBackFrom(s, next, bodies[1..]);
    }
  }

  // ---------------------------------------------------------------- lines read back

  function TrimText(t: bytes): bytes {
    Trimmed(t, 0, |t|)
  }

  /** The messages a reader finds in the lines of `bodies`. */
  function LineMessages(bodies: seq<bytes>): seq<bytes> {
    if bodies == [] then []
    else
      var line := TrimText(Flatten(bodies[0]));
      (if line == [] then [] else [line]) + LineMessages(bodies[1..])
  }

  lemma {:induction false} TrimLeftInText(s: bytes, a: nat, t: bytes, i: nat)
    requires TextAt(s, a, t) && i <= |t|
    ensures TrimLeft(s, a + i, a + |t|) == a + TrimLeft(t, i, |t|)
    decreases |t| - i
  {
    if i < |t| {
      TextAtByte(s, a, t, i);
      TrimLeftInText(s, a, t, i + 1);
    }
  }

  lemma {:induction false} TrimRightInText(s: bytes, a: nat, t: bytes, i: nat, e: nat)
    requires TextAt(s, a, t) && i <= e <= |t|
    ensures TrimRight(s, a + i, a + e) == a + TrimRight(t, i, e)
    decreases e
  {
    if i < e {
      TextAtByte(s, a, t, e - 1);
      TrimRightInText(s, a, t, i, e - 1);
    }
  }

  lemma SliceOfSlice(s: bytes, a: nat, e: nat, b: nat, c: nat)
    requires a <= e <= |s| && b <= c <= e - a
    ensures s[a..e][b..c] == s[a + b..a + c]
  {
    forall k | 0 <= k < c - b ensures s[a..e][b..c][k] == s[a + b..a + c][k] {
      assert s[a..e][b + k] == s[a + b + k];
    }
  }

  lemma TrimmedInText(s: bytes, a: nat, t: bytes)
    requires TextAt(s, a, t)
    ensures Trimmed(s, a, a + |t|) == TrimText(t)
  {
    TrimLeftInText(s, a, t, 0);
    TrimRightInText(s, a, t, TrimLeft(t, 0, |t|), |t|);
    TextAtSlice(s, a, t);
    var b := TrimLeft(t, 0, |t|);
    SliceOfSlice(s, a, a + |t|, b, TrimRight(t, b, |t|));
  }

  lemma FlatHasNoBreak(body: bytes)
    ensures LF !in Flatten(body)
  {
    forall k | 0 <= k < |body| ensures Flatten(body)[k] != LF {
      FlattenAt(body, k);
    }
  }

  /** A text without newline, with one behind it, is a line, and trims as it would alone. */
  lemma LineParts(s: bytes, a: nat, t: bytes)
    requires TextAt(s, a, t) && a + |t| < |s| && s[a + |t|] == LF && LF !in t
    ensures LineEnd(s, a) == a + |t|
    ensures Trimmed(s, a, a + |t|) == TrimText(t)
  {
    forall k | a <= k < a + |t| ensures s[k] != LF {
      TextAtByte(s, a, t, k - a);
    }
    LineEndIs(s, a, a + |t|);
    TrimmedInText(s, a, t);
  }

  /** Bodies whose line, newline included, fits the reader's buffer. */
  ghost predicate FitLines(bodies: seq<bytes>) {
    forall k :: 0 <= k < |bodies| ==> |bodies[k]| < MAX_MESSAGE
  }

  lemma LineAndRest(s: bytes, a: nat, t: bytes, rest: bytes) returns (next: nat)
    requires TextAt(s, a, (t + [LF]) + rest)
    ensures next == a + |t| + 1 <= |s| && TextAt(s, next, rest) && TextAt(s, a, t) && s[next - 1] == LF
  {
    TextAtSplit(s, a, t + [LF], rest);
    TextAtSplit(s, a, t, [LF]);
    TextAtByte(s, a + |t|, [LF], 0);
    next := a + |t| + 1;
  }

  lemma FirstLineText(s: bytes, a: nat, bodies: seq<bytes>) returns (next: nat)
    requires bodies != [] && TextAt(s, a, Stream(Ndjson, bodies))
    ensures next == a + |bodies[0]| + 1 <= |s| && TextAt(s, next, Stream(Ndjson, bodies[1..]))
    ensures next + |Stream(Ndjson, bodies[1..])| == a + |Stream(Ndjson, bodies)|
    ensures TextAt(s, a, Flatten(bodies[0])) && s[next - 1] == LF
  {
    var t, end, rest := Flatten(bodies[0]), [LF], Stream(Ndjson, bodies[1..]);
    assert Stream(Ndjson, bodies) == (t + end) + rest;
    next := LineAndRest(s, a, t, rest);
  }

  /** Where the first of some lines lies, and what it says. */
  lemma FirstOfLines(s: bytes, a: nat, bodies: seq<bytes>)
    returns (next: nat, line: bytes)
    requires bodies != [] && TextAt(s, a, Stream(Ndjson, bodies))
    ensures next == a + |bodies[0]| + 1 <= |s| && TextAt(s, next, Stream(Ndjson, bodies[1..]))
    ensures next + |Stream(Ndjson, bodies[1..])| == a + |Stream(Ndjson, bodies)|
    ensures LineEnd(s, a) == next - 1 && Trimmed(s, a, next - 1) == line == TrimText(Flatten(bodies[0]))
  {
    next := FirstLineText(s, a, bodies);
    FlatHasNoBreak(bodies[0]);
    LineParts(s, a, Flatten(bodies[0]));
    line := TrimText(Flatten(bodies[0]));
  }

  /** Reading a line that ends at `e`. */
  lemma ReadOneLine(s: bytes, a: nat, e: nat, line: bytes)
    requires a <= |s| && LineEnd(s, a) == e < |s| && e - a < MAX_MESSAGE && line == Trimmed(s, a, e)
    ensures Messages(s, Ndjson, a) == (if line == [] then [] else [line]) + Messages(s, Ndjson, e + 1)
  {
    if line == [] {
      assert NextLine(s, a) == NextLine(s, e + 1);
      assert Messages(s, Ndjson, a) == Messages(s, Ndjson, e + 1);
    } else {
      assert NextLine(s, a) == Step(Some(line), Ndjson, e + 1);
    }
  }

  lemma NothingLeft(s: bytes)
    ensures Messages(s, Ndjson, |s|) == []
  {
    assert NextLine(s, |s|).message.None?;
  }

  lemma LinesStep(s: bytes, a: nat, next: nat, line: bytes, rest: seq<bytes>)
    requires a < next <= |s| && LineEnd(s, a) == next - 1 && next - a <= MAX_MESSAGE && line == Trimmed(s, a, next - 1)
    requires Messages(s, Ndjson, next) == rest
    ensures Messages(s, Ndjson, a) == (if line == [] then [] else [line]) + rest
  {
    ReadOneLine(s, a, next - 1, line);
  }

  lemma {:induction false} LinesReadBackFrom(s: bytes, a: nat, bodies: seq<bytes>)
    requires FitLines(bodies) && TextAt(s, a, Stream(Ndjson, bodies)) && a + |Stream(Ndjson, bodies)| == |s|
    ensures Messages(s, Ndjson, a) == LineMessages(bodies)
    decreases |bodies|
  {
    hide AgreesFrom, NextLine, TrimLeft, TrimRight, Flatten, Messages;
    if bodies == [] {
      NothingLeft(s);
    } else {
      var next, line := FirstOfLines(s, a, bodies);
      LinesReadBackFrom(s, next, bodies[1..]);
      LinesStep(s, a, next, line, LineMessages(bodies[1..]));
    }
  }

  lemma {:induction false} LinesAlwaysFit(s: bytes, a: nat)
    requires a <= |s|
    ensures AllFit(s, Ndjson, a)
    decreases |s| - a
  {
    if Next(s, Ndjson, a).message.Some? { LinesAlwaysFit(s, Next(s, Ndjson, a).at); }
  }

  // The first line decides the framing.

  lemma {:induction false} KeyByte(s: bytes, i: nat, n: nat, k: nat)
    requires k < n <= |KEY| && KeyPrefix(s, i, n)
    ensures i + k < |s| && Lower(s[i + k]) == KEY[k] && !IsSpace(s[i + k])
    decreases n
  {
    if k < n - 1 { KeyByte(s, i, n - 1, k); }
  }

  lemma {:induction false} KeyInText(s: bytes, a: nat, t: bytes, n: nat)
    requires TextAt(s, a, t) && n <= |KEY| && n <= |t| && KeyPrefix(s, a, n)
    ensures KeyPrefix(t, 0, n)
  {
    if n > 0 {
      TextAtByte(s, a, t, n - 1);
      KeyInText(s, a, t, n - 1);
    }
  }

  /** White space before `e` ends the trimmed text or lies outside it. */
  lemma {:induction false} SpaceBehind(s: bytes, b: nat, e: nat)
    requires b <= e <= |s|
    ensures TrimRight(s, b, e) < e ==> IsSpace(s[TrimRight(s, b, e)])
  {
    if b < e && IsSpace(s[e - 1]) { SpaceBehind(s, b, e - 1); }
  }

  /** A text that starts neither with the header key nor with a byte-order mark. */
  predicate PlainStart(t: bytes) {
    t != [] && !KeyAt(t, 0) && !MarkAt(t, 0)
  }

  /** Detection at a line sees exactly what the trimmed line starts with. */
  lemma PlainLine(s: bytes, b: nat, e: nat, r: nat)
    requires b < e <= |s| && (e < |s| ==> IsSpace(s[e])) && r == TrimRight(s, b, e) && PlainStart(s[b..r])
    ensures !KeyAt(s, b) && !MarkAt(s, b)
  {
    var t := s[b..r];
    TextAtSlice(s, b, t);
    SpaceBehind(s, b, e);
    assert r < |s| ==> IsSpace(s[r]);
    if KeyAt(s, b) {
      if r < b + |KEY| {
        KeyByte(s, b, |KEY|, r - b);
        assert false;
      } else {
        KeyInText(s, b, t, |KEY|);
        assert false;
      }
    }
  }

  lemma {:induction false} SkipMarksToText(s: bytes, a: nat, e: nat)
    requires a <= e <= |s| && TrimLeft(s, a, e) < e && !MarkAt(s, TrimLeft(s, a, e))
    ensures SkipMarks(s, a) == TrimLeft(s, a, e)
    ensures LineEnd(s, a) == e ==> LineEnd(s, TrimLeft(s, a, e)) == e
    ensures !IsSpace(s[TrimLeft(s, a, e)])
    decreases e - a
  {
    if IsSpace(s[a]) {
      SkipMarksToText(s, a + 1, e);
    }
  }

  /** A first line that is not blank and starts like neither a header nor a mark is read as ndjson. */
  lemma FirstLine(s: bytes, e: nat)
    requires e == LineEnd(s, 0) < |s| && e < MAX_MESSAGE && PlainStart(Trimmed(s, 0, e))
    ensures Next(s, Unknown, 0) == Next(s, Ndjson, 0)
    ensures Fits(s, Unknown, 0)
  {
    var b := TrimLeft(s, 0, e);
    var r := TrimRight(s, b, e);
    PlainLine(s, b, e, r);
    SkipMarksToText(s, 0, e);
    assert TrimLeft(s, b, e) == b;
  }

  /** Newline-delimited framing: a reader of the encoded stream returns the trimmed, flattened bodies. */
  lemma LinesReadBack(bodies: seq<bytes>)
    requires FitLines(bodies) && (bodies != [] ==> PlainStart(TrimText(Flatten(bodies[0]))))
    ensures var s := Stream(Ndjson, bodies);
            && Messages(s, Unknown, 0) == LineMessages(bodies)
            && AllFit(s, Unknown, 0)
            && (bodies != [] ==> Next(s, Unknown, 0).kind == Ndjson)
  {
    hide AgreesFrom, NextLine, TrimLeft, TrimRight, Flatten;
    var s := Stream(Ndjson, bodies);
    if bodies != [] {
      TextAtWhole(s);
      LinesReadBackFrom(s, 0, bodies);
      var next, line := FirstOfLines(s, 0, bodies);
      FirstLine(s, next - 1);
      LinesAlwaysFit(s, 0);
    }
  }

  /** Where nothing is to be trimmed or flattened, every body comes back as it was. */
  lemma {:induction false} LineMessagesAsSent(bodies: seq<bytes>)
    requires forall k :: 0 <= k < |bodies| ==> bodies[k] != [] && TrimText(Flatten(bodies[k])) == bodies[k]
    ensures LineMessages(bodies) == bodies
  {
    if bodies != [] { LineMessagesAsSent(bodies[1..]); }
  }

  // ---------------------------------------------------------------- first frames whose reading depends on the reads

  /** A length line of 16 + `n` bytes before its newline, and the one byte it announces. */
  function Padded(n: nat, b: byte): bytes {
    KEY + seq(n, _ => SPACE) + [0x31, LF, LF, b]
  }

  lemma {:induction false} SpacesEnd(s: bytes, i: nat, j: nat, e: nat)
    requires i <= j <= e <= |s| && (forall k :: i <= k < j ==> IsCSpace(s[k])) && (j < e ==> !IsCSpace(s[j]))
    ensures CSpaceEnd(s, i, e) == j
    decreases j - i
  {
    if i < j { SpacesEnd(s, i + 1, j, e); }
  }

  lemma {:induction false} KeyFrom(s: bytes, n: nat)
    requires |s| >= |KEY| && s[..|KEY|] == KEY && n <= |KEY|
    ensures KeyPrefix(s, 0, n)
  {
    if n > 0 {
      KeyFrom(s, n - 1);
      assert s[n - 1] == s[..|KEY|][n - 1];
    }
  }

  /** Its frame is in order, however long the padding: all that can be wrong is how the line is buffered. */
  lemma PaddedFrame(n: nat, b: byte)
    ensures var s := Padded(n, b); var e := |KEY| + n + 1;
            && KeyAt(s, 0) && LineEnd(s, 0) == e < |s| && HasVisible(s, |KEY|, e) && HeadersFit(s, e + 1, true)
            && NextFrame(s, 0, false, None).message == Some([b])
  {
    var s, e := Padded(n, b), |KEY| + n + 1;
    KeyFrom(s, |KEY|);
    LineEndIs(s, 0, e);
    SpacesEnd(s, |KEY|, e - 1, e);
    assert Strtoul(s, |KEY|, e) == 1 by { OneDigit(s, |KEY|, e - 1); }
    assert LineEnd(s, e + 1) == e + 1 && s[e + 2..e + 3] == [b];
    assert NextFrame(s, e + 1, true, Some(1)) == BodyAt(s, e + 2, Some(1));
  }

  lemma OneDigit(s: bytes, i: nat, j: nat)
    requires i <= j && j + 1 < |s| && CSpaceEnd(s, i, j + 1) == j && s[j] == 0x31
    ensures Strtoul(s, i, j + 1) == 1
  {
    assert Decimal.DigitsEnd(s, j + 1, j + 1) == j + 1 && Decimal.DigitsEnd(s, j, j + 1) == j + 1;
    assert Decimal.Value(s, j, j) == 0 && Decimal.Value(s, j, j + 1) == 1;
  }

  /** A length line without a number, a line that starts with one, and that many bytes. */
  function Split(b: byte): bytes {
    KEY + [LF, 0x31, LF, LF, b]
  }

  /**
   * Read with the second line the first announces the byte. Read by itself it announces what lies in memory:
   * nothing if that is nothing, the byte if it happens to be the digit 1.
   */
  lemma SplitFrame(b: byte)
    ensures var s := Split(b); var e := |KEY|; var f := e + 2;
            && KeyAt(s, 0) && LineEnd(s, 0) == e < |s| && !HasVisible(s, |KEY|, e)
            && LineEnd(s, e + 1) == f < |s| && HasVisible(s, e + 1, f) && HeadersFit(s, e + 1, true)
            && Strtoul([], 0, 0) == 0 && NextFrame(s, e + 1, true, Some(0)).message.None?
            && Strtoul([0x31], 0, 1) == Strtoul(s, e + 1, f) == 1
            && NextFrame(s, e + 1, true, Some(1)).message == Some([b])
  {
    var s, e, f := Split(b), |KEY|, |KEY| + 2;
    var one: bytes := [0x31];
    assert Decimal.DigitsEnd(one, 0, 1) == Decimal.DigitsEnd(one, 1, 1) == 1;
    assert Decimal.Value(one, 0, 0) == 0 && Decimal.Value(one, 0, 1) == 1;
    KeyFrom(s, |KEY|);
    LineEndIs(s, 0, e);
    LineEndIs(s, e + 1, f);
    OneDigit(s, e + 1, e + 1);
    assert LineEnd(s, f + 1) == f + 1 && s[f + 2..f + 3] == [b];
    assert !KeyAt(s, e + 1) by { if KeyAt(s, e + 1) { KeyLine(s, e + 1); } }
    forall l: nat ensures NextFrame(s, e + 1, true, Some(l)) == BodyAt(s, f + 2, Some(l)) {
      assert NextFrame(s, f + 1, true, Some(l)) == BodyAt(s, f + 2, Some(l));
    }
  }
}
