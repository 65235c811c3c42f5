/**
 * Streams as other programs write them: marks and blanks in front, a last line without a newline, header lines
 * beside the length line.
 */
module FramingStreams {
  import opened Bytes
  import C = ConnectionFrames
  import Decimal
  import opened Framing
  import opened FramingRoundTrip

  // ---------------------------------------------------------------- trimming

  lemma {:induction false} LeftIsSpace(s: bytes, a: nat, e: nat)
    requires a <= e <= |s|
    ensures var b := TrimLeft(s, a, e);
            (forall k :: a <= k < b ==> s[k] in {SPACE, TAB, CR, LF}) && (b < e ==> s[b] !in {SPACE, TAB, CR, LF})
    decreases e - a
  {
    if a < e && IsSpace(s[a]) { LeftIsSpace(s, a + 1, e); }
  }

  lemma {:induction false} RightIsSpace(s: bytes, a: nat, e: nat)
    requires a <= e <= |s|
    ensures var b := TrimRight(s, a, e);
            (forall k :: b <= k < e ==> s[k] in {SPACE, TAB, CR, LF}) && (a < b ==> s[b - 1] !in {SPACE, TAB, CR, LF})
  {
    if a < e && IsSpace(s[e - 1]) { RightIsSpace(s, a, e - 1); }
  }

  /** `t[i..j]` is what is left of `t` without the white space at both ends. */
  ghost predicate IsTrimmed(t: bytes, i: nat, j: nat) {
    && i <= j <= |t|
    && (forall k :: 0 <= k < i || j <= k < |t| ==> t[k] in {SPACE, TAB, CR, LF})
    && (i < j ==> t[i] !in {SPACE, TAB, CR, LF} && t[j - 1] !in {SPACE, TAB, CR, LF})
  }

  lemma TrimTextIff(t: bytes, u: bytes)
    ensures u == TrimText(t) <==> exists i: nat, j: nat :: IsTrimmed(t, i, j) && u == t[i..j]
  {
    var i := TrimLeft(t, 0, |t|);
    var j := TrimRight(t, i, |t|);
    LeftIsSpace(t, 0, |t|);
    RightIsSpace(t, i, |t|);
    assert IsTrimmed(t, i, j) && TrimText(t) == t[i..j];
    forall a: nat, b: nat | IsTrimmed(t, a, b) ensures t[a..b] == t[i..j] {
      SameTrim(t, a, b, i, j);
    }
  }

  lemma SameTrim(t: bytes, a: nat, b: nat, i: nat, j: nat)
    requires IsTrimmed(t, a, b) && IsTrimmed(t, i, j)
    ensures t[a..b] == t[i..j]
  {
    if a < b && i < j {
      assert a <= i by { assert t[i] !in {SPACE, TAB, CR, LF}; }
      assert i <= a by { assert t[a] !in {SPACE, TAB, CR, LF}; }
      assert j <= b by { assert t[j - 1] !in {SPACE, TAB, CR, LF}; }
      assert b <= j by { assert t[b - 1] !in {SPACE, TAB, CR, LF}; }
    }
  }

  // ---------------------------------------------------------------- marks and blanks in front

  const MARK: bytes := [0xEF, 0xBB, 0xBF]

  /** White space and byte-order marks, in any order. */
  predicate IsLead(t: bytes)
    decreases |t|
  {
    t == [] || (t[0] in {SPACE, TAB, CR, LF} && IsLead(t[1..])) || (MARK <= t && IsLead(t[3..]))
  }

  lemma {:induction false} LeadIsSkipped(s: bytes, a: nat, lead: bytes)
    requires IsLead(lead) && TextAt(s, a, lead)
    ensures SkipMarks(s, a) == SkipMarks(s, a + |lead|)
    decreases |lead|
  {
    if lead != [] {
      var n := if lead[0] in {SPACE, TAB, CR, LF} then 1 else 3;
      assert lead == lead[..n] + lead[n..];
      TextAtSplit(s, a, lead[..n], lead[n..]);
      TextAtByte(s, a, lead, 0);
      if n == 3 {
        TextAtByte(s, a, lead, 1);
        TextAtByte(s, a, lead, 2);
      }
      LeadIsSkipped(s, a + n, lead[n..]);
    }
  }

  /** Content-Length messages behind such a lead are read as they are without it. */
  lemma FramesBehindMarks(lead: bytes, bodies: seq<bytes>)
    requires IsLead(lead) && Sendable(bodies)
    ensures Messages(lead + Stream(ContentLength, bodies), Unknown, 0) == bodies
    ensures AllFit(lead + Stream(ContentLength, bodies), Unknown, 0)
  {
    hide AgreesFrom, NextFrame;
    var s := lead + Stream(ContentLength, bodies);
    TextAtWhole(s);
    TextAtSplit(s, 0, lead, Stream(ContentLength, bodies));
    LeadIsSkipped(s, 0, lead);
    if bodies != [] {
      var next := FirstFrame(s, |lead|, bodies);
      HeaderSkipsNothing(s, |lead|, bodies);
      FramesReadBackFrom(s, next, bodies[1..]);
    }
  }

  lemma HeaderSkipsNothing(s: bytes, a: nat, bodies: seq<bytes>)
    requires bodies != [] && 0 < |bodies[0]| <= MAX_MESSAGE && TextAt(s, a, Stream(ContentLength, bodies))
    ensures KeyAt(s, a) && SkipMarks(s, a) == a < |s|
  {
    TextAtSplit(s, a, Frame(bodies[0]), Stream(ContentLength, bodies[1..]));
    FrameReadsBack(s, a, bodies[0]);
    KeyByte(s, a, |KEY|, 0);
  }

  // ---------------------------------------------------------------- a last line without a newline

  /** What a line gives: nothing if it is blank. */
  function LineMessage(t: bytes): seq<bytes> {
    if TrimText(t) == [] then [] else [TrimText(t)]
  }

  /** The last line, which the stream ends in. */
  lemma LastLine(s: bytes, a: nat, t: bytes)
    requires TextAt(s, a, t) && a + |t| == |s| && LF !in t && |t| < MAX_MESSAGE
    ensures LineEnd(s, a) == |s| && Trimmed(s, a, |s|) == TrimText(t)
    ensures Messages(s, Ndjson, a) == LineMessage(t)
  {
    hide AgreesFrom;
    forall k | a <= k < |s| ensures s[k] != LF { TextAtByte(s, a, t, k - a); }
    LineEndIs(s, a, |s|);
    TrimmedInText(s, a, t);
    NothingLeft(s);
    assert Messages(s, Ndjson, |s|) == [];
  }

  /** Lines as any program writes them, with a carriage return before the newline or without. */
  function Lines(lines: seq<bytes>): bytes {
    if lines == [] then [] else (lines[0] + [LF]) + Lines(lines[1..])
  }

  function MessagesOf(lines: seq<bytes>): seq<bytes> {
    if lines == [] then [] else LineMessage(lines[0]) + MessagesOf(lines[1..])
  }

  ghost predicate AreLines(lines: seq<bytes>) {
    forall k :: 0 <= k < |lines| ==> LF !in lines[k] && |lines[k]| < MAX_MESSAGE
  }

  /** The first of some lines. */
  lemma LineFirst(s: bytes, a: nat, lines: seq<bytes>, t: bytes) returns (next: nat)
    requires lines != [] && AreLines(lines) && TextAt(s, a, Lines(lines) + t) && a + |Lines(lines) + t| == |s|
    ensures a < next == a + |lines[0]| + 1 <= |s| && LineEnd(s, a) == next - 1
    ensures Trimmed(s, a, next - 1) == TrimText(lines[0])
    ensures TextAt(s, next, Lines(lines[1..]) + t) && next + |Lines(lines[1..]) + t| == |s|
  {
    hide AgreesFrom, TrimLeft, TrimRight;
    AppendAssociates(lines[0] + [LF], Lines(lines[1..]), t);
    next := LineAndRest(s, a, lines[0], Lines(lines[1..]) + t);
    LineParts(s, a, lines[0]);
  }

  lemma {:induction false} LinesFrom(s: bytes, a: nat, lines: seq<bytes>, t: bytes)
    requires AreLines(lines) && TextAt(s, a, Lines(lines) + t) && a + |Lines(lines) + t| == |s|
    ensures Messages(s, Ndjson, a) == MessagesOf(lines) + Messages(s, Ndjson, |s| - |t|) && TextAt(s, |s| - |t|, t)
    decreases |lines|
  {
    hide AgreesFrom, NextLine, TrimText, LineEnd, Trimmed, Messages;
    if lines == [] {
      NoLines(t);
      assert [] + Messages(s, Ndjson, a) == Messages(s, Ndjson, a);
    } else {
      var next := LineFirst(s, a, lines, t);
      LinesFrom(s, next, lines[1..], t);
      LinesStep(s, a, next, TrimText(lines[0]), MessagesOf(lines[1..]) + Messages(s, Ndjson, |s| - |t|));
      Regroup(LineMessage(lines[0]), MessagesOf(lines[1..]), Messages(s, Ndjson, |s| - |t|));
    }
  }

  lemma NoLines(t: bytes)
    ensures Lines([]) + t == t
  {
  }

  lemma Regroup(a: seq<bytes>, b: seq<bytes>, c: seq<bytes>)
    ensures (a + b) + c == a + (b + c)
  {
  }

  /** A first line at `a`, behind a lead, that starts like neither a header nor a mark is read as a line. */
  lemma FirstLineAt(s: bytes, a: nat, e: nat)
    requires a <= |s| && e == LineEnd(s, a) && e - a < MAX_MESSAGE && PlainStart(Trimmed(s, a, e))
    requires SkipMarks(s, 0) == SkipMarks(s, a)
    ensures Next(s, Unknown, 0) == Next(s, Ndjson, a) && Next(s, Unknown, 0).message == Some(Trimmed(s, a, e))
    ensures Fits(s, Unknown, 0)
  {
    var b := TrimLeft(s, a, e);
    PlainLine(s, b, e, TrimRight(s, b, e));
    SkipMarksToText(s, a, e);
    assert TrimLeft(s, b, e) == b;
  }

  /**
   * Any lead, lines, and a last line without a newline: the messages are the trimmed lines that are not blank, the
   * last one too. The first line must not start like a header or a mark.
   */
  lemma LinesWithRest(lead: bytes, lines: seq<bytes>, t: bytes)
    requires IsLead(lead) && AreLines(lines) && LF !in t && |t| < MAX_MESSAGE
    requires PlainStart(TrimText(if lines == [] then t else lines[0]))
    ensures var s := lead + (Lines(lines) + t);
            && Messages(s, Unknown, 0) == MessagesOf(lines) + LineMessage(t)
            && AllFit(s, Unknown, 0) && Next(s, Unknown, 0).kind == Ndjson
  {
    hide AgreesFrom, NextLine, TrimText, Trimmed, LineEnd, SkipMarks, Lines, MessagesOf, LineMessage, PlainStart;
    var a, all := |lead|, Lines(lines) + t;
    var s := lead + all;
    TextAtWhole(s);
    TextAtSplit(s, 0, lead, all);
    LeadIsSkipped(s, 0, lead);
    LinesFrom(s, a, lines, t);
    LastLine(s, |s| - |t|, t);
    if lines == [] {
      NoLines(t);
      FirstLineAt(s, a, |s|);
    } else {
      var next := LineFirst(s, a, lines, t);
      FirstLineAt(s, a, next - 1);
    }
    LinesAlwaysFit(s, Next(s, Unknown, 0).at);
  }

  /** 16 MiB without a newline are dropped, and reading ends: only the lines before them are messages. */
  lemma OverlongLineEnds(lines: seq<bytes>, t: bytes)
    requires AreLines(lines) && |t| >= MAX_MESSAGE && LF !in t[..MAX_MESSAGE]
    ensures Messages(Lines(lines) + t, Ndjson, 0) == MessagesOf(lines)
  {
    hide AgreesFrom, NextLine, TrimText, Trimmed, LineEnd, Lines, MessagesOf;
    var s := Lines(lines) + t;
    TextAtWhole(s);
    LinesFrom(s, 0, lines, t);
    LongLine(s, |s| - |t|, t);
    assert MessagesOf(lines) + [] == MessagesOf(lines);
  }

  lemma LongLine(s: bytes, a: nat, t: bytes)
    requires TextAt(s, a, t) && |t| >= MAX_MESSAGE && LF !in t[..MAX_MESSAGE]
    ensures Messages(s, Ndjson, a) == []
  {
    hide AgreesFrom;
    TextAtSlice(s, a, t);
    forall k | a <= k < a + MAX_MESSAGE ensures s[k] != LF {
      assert s[k] == s[a..a + |t|][k - a] == t[..MAX_MESSAGE][k - a];
    }
    NoEndBefore(s, a, a + MAX_MESSAGE);
  }

  lemma {:induction false} NoEndBefore(s: bytes, a: nat, e: nat)
    requires a <= e <= |s| && forall k :: a <= k < e ==> s[k] != LF
    ensures LineEnd(s, a) >= e
    decreases e - a
  {
    if a < e { NoEndBefore(s, a + 1, e); }
  }

  /** A stream of white space and marks alone has no messages. */
  lemma LeadAlone(lead: bytes)
    requires IsLead(lead)
    ensures Messages(lead, Unknown, 0) == []
  {
    TextAtWhole(lead);
    LeadIsSkipped(lead, 0, lead);
  }

  // ---------------------------------------------------------------- headers as other programs write them

  /** What stands on a length line: the key in either case, blanks, digits, and anything else behind them. */
  datatype LengthText = LengthText(key: bytes, blanks: bytes, digits: bytes, tail: bytes)

  ghost predicate Announces(l: LengthText, n: nat) {
    && |l.key| == |KEY| && (forall k :: 0 <= k < |KEY| ==> SameLetter(l.key[k], KEY[k]))
    && (forall k :: 0 <= k < |l.blanks| ==> l.blanks[k] in {SPACE, TAB, 11, 12, CR})
    && l.digits != [] && (forall k :: 0 <= k < |l.digits| ==> IsDigit(l.digits[k]))
    && Decimal.Value(l.digits, 0, |l.digits|) == n < ULONG_RANGE
    && LF !in l.tail && (l.tail == [] || !IsDigit(l.tail[0])) && |TextOf(l)| < C.LINE_ROOM
  }

  predicate SameLetter(b: byte, small: byte) {
    b == small || (0x41 <= b <= 0x5A && b + 0x20 == small)
  }

  function TextOf(l: LengthText): bytes {
    l.key + l.blanks + l.digits + l.tail
  }

  /** A header line of another name: not blank, and no length line. */
  ghost predicate OtherLine(t: bytes) {
    t != [] && t[0] != CR && LF !in t && !KeyAt(t + [LF], 0) && |t| < C.LINE_ROOM
  }

  ghost predicate Others(lines: seq<bytes>) {
    forall k :: 0 <= k < |lines| ==> OtherLine(lines[k])
  }

  /** A frame with other header lines before and behind its length line; lines end in a newline, with CR or without. */
  function FrameWith(before: seq<bytes>, l: LengthText, behind: seq<bytes>, cr: bool, body: bytes): bytes {
    Lines(before) + ((TextOf(l) + [LF]) + (Lines(behind) + (EmptyLine(cr) + body)))
  }

  function EmptyLine(cr: bool): bytes {
    if cr then [CR, LF] else [LF]
  }

  /** Where a line lies. */
  lemma LineAt(s: bytes, a: nat, t: bytes, rest: bytes) returns (next: nat)
    requires t != [] && LF !in t && TextAt(s, a, (t + [LF]) + rest)
    ensures next == a + |t| + 1 <= |s| && TextAt(s, next, rest) && LineEnd(s, a) == next - 1 && s[a] == t[0]
    ensures TextAt(s, a, t + [LF]) && s[a..next] == t + [LF]
  {
    hide AgreesFrom;
    TextAtSplit(s, a, t + [LF], rest);
    next := LineAndRest(s, a, t, rest);
    TextAtSlice(s, a, t + [LF]);
    LineParts(s, a, t);
    TextAtByte(s, a, t, 0);
  }

  /** A text with its line break holds the whole key if any of it does. */
  lemma NoKeyHere(s: bytes, a: nat, t: bytes)
    requires TextAt(s, a, t) && t != [] && t[|t| - 1] == LF && !KeyAt(t, 0)
    ensures !KeyAt(s, a)
  {
    hide AgreesFrom;
    if KeyAt(s, a) {
      if |t| <= |KEY| {
        TextAtByte(s, a, t, |t| - 1);
        KeyByte(s, a, |KEY|, |t| - 1);
      } else {
        KeyInText(s, a, t, |KEY|);
      }
    }
  }

  lemma {:induction false} KeyIs(s: bytes, a: nat, key: bytes, n: nat)
    requires TextAt(s, a, key) && n <= |key| == |KEY| && forall k :: 0 <= k < |KEY| ==> SameLetter(key[k], KEY[k])
    ensures KeyPrefix(s, a, n)
  {
    hide AgreesFrom;
    if n > 0 {
      TextAtByte(s, a, key, n - 1);
      KeyIs(s, a, key, n - 1);
    }
  }

  lemma {:induction false} BlanksEnd(s: bytes, i: nat, j: nat, e: nat)
    requires i <= j < e <= |s| && (forall k :: i <= k < j ==> s[k] in {SPACE, TAB, 11, 12, CR}) && IsDigit(s[j])
    ensures CSpaceEnd(s, i, e) == j
    decreases j - i
  {
    if i < j { BlanksEnd(s, i + 1, j, e); }
  }

  lemma {:induction false} SameValue(s: bytes, i: nat, t: bytes, n: nat)
    requires n <= |t| && i + |t| <= |s| && forall k :: 0 <= k < |t| ==> s[i + k] == t[k] && IsDigit(t[k])
    ensures forall k :: i <= k < i + n ==> IsDigit(s[k])
    ensures Decimal.Value(s, i, i + n) == Decimal.Value(t, 0, n)
  {
    forall k | i <= k < i + n ensures IsDigit(s[k]) { assert s[i + (k - i)] == t[k - i]; }
    if n > 0 { SameValue(s, i, t, n - 1); }
  }

  /** The number read from blanks and digits, up to a byte that is no digit. */
  lemma NumberIs(s: bytes, i: nat, j: nat, k: nat, e: nat, digits: bytes)
    requires i <= j < k <= e <= |s| && (forall x :: i <= x < j ==> s[x] in {SPACE, TAB, 11, 12, CR})
    requires s[j..k] == digits && (forall x :: 0 <= x < |digits| ==> IsDigit(digits[x])) && (k < e ==> !IsDigit(s[k]))
    requires Decimal.Value(digits, 0, |digits|) < ULONG_RANGE
    ensures Strtoul(s, i, e) == Decimal.Value(digits, 0, |digits|) && HasVisible(s, i, e)
  {
    forall x | 0 <= x < |digits| ensures s[j + x] == digits[x] { assert s[j..k][x] == s[j + x]; }
    SameValue(s, j, digits, |digits|);
    assert s[j + 0] == digits[0];
    BlanksEnd(s, i, j, e);
    DigitsEndIs(s, j, k, e);
  }

  /** A length line in any such form says its number. */
  lemma LengthIs(s: bytes, a: nat, l: LengthText, n: nat)
    requires Announces(l, n) && TextAt(s, a, TextOf(l) + [LF])
    ensures var e := a + |TextOf(l)|;
            && e < |s| && LineEnd(s, a) == e && a + |KEY| <= e && KeyAt(s, a) && !BlankHeader(s, a, e)
            && Strtoul(s, a + |KEY|, e) == n && HasVisible(s, a + |KEY|, e) && s[a] != CR && s[a] != LF
  {
    hide AgreesFrom, Strtoul, KeyPrefix, HasVisible, TextOf;
    var i, j, k, e := LengthParts(s, a, l, n);
    TextAtSlice(s, j, l.digits);
    NumberIs(s, i, j, k, e, l.digits);
    KeyIs(s, a, l.key, |KEY|);
    NoBreakIn(l, n);
    forall x | a <= x < e ensures s[x] != LF { TextAtByte(s, a, TextOf(l), x - a); }
    LineEndIs(s, a, e);
    TextAtByte(s, a, l.key, 0);
    assert SameLetter(s[a], KEY[0]);
  }

  /** Where blanks, digits and the rest of a length line lie. */
  lemma LengthParts(s: bytes, a: nat, l: LengthText, n: nat) returns (i: nat, j: nat, k: nat, e: nat)
    requires Announces(l, n) && TextAt(s, a, TextOf(l) + [LF])
    ensures TextAt(s, a, l.key) && TextAt(s, j, l.digits) && TextAt(s, a, TextOf(l))
    ensures i == a + |KEY| <= j < k == j + |l.digits| <= e == a + |TextOf(l)| < |s| && s[e] == LF
    ensures (forall x :: i <= x < j ==> s[x] in {SPACE, TAB, 11, 12, CR}) && (k < e ==> !IsDigit(s[k]))
  {
    hide AgreesFrom;
    i := a + |KEY|;
    j := i + |l.blanks|;
    k := j + |l.digits|;
    e := a + |TextOf(l)|;
    TextAtSplit(s, a, TextOf(l), [LF]);
    TextAtSplit(s, a, l.key + l.blanks + l.digits, l.tail);
    TextAtSplit(s, a, l.key + l.blanks, l.digits);
    TextAtSplit(s, a, l.key, l.blanks);
    TextAtByte(s, e, [LF], 0);
    forall x | i <= x < j ensures s[x] in {SPACE, TAB, 11, 12, CR} { TextAtByte(s, i, l.blanks, x - i); }
    if l.tail != [] { TextAtByte(s, k, l.tail, 0); }
  }

  lemma NoBreakIn(l: LengthText, n: nat)
    requires Announces(l, n)
    ensures LF !in TextOf(l)
  {
    forall k | 0 <= k < |l.key| ensures l.key[k] != LF {
      KeyIsVisible(k);
      assert SameLetter(l.key[k], KEY[k]);
    }
  }

  lemma KeyIsVisible(k: nat)
    requires k < |KEY|
    ensures KEY[k] > 0x20
  {
  }

  // ---------------------------------------------------------------- read from stdin

  lemma OtherPasses(s: bytes, a: nat, next: nat, t: bytes, any: bool, length: Option<nat>)
    requires OtherLine(t) && TextAt(s, a, t + [LF]) && LineEnd(s, a) == next - 1 && next == a + |t| + 1 && s[a] == t[0]
    ensures next <= |s| && NextFrame(s, a, any, length) == NextFrame(s, next, true, length)
    ensures HeadersFit(s, next, true) ==> HeadersFit(s, a, any)
  {
    NoKeyHere(s, a, t + [LF]);
  }

  /** Other header lines change nothing of what the lines behind them mean. */
  lemma {:induction false} OthersPass(s: bytes, a: nat, lines: seq<bytes>, rest: bytes, any: bool, length: Option<nat>)
    returns (next: nat)
    requires Others(lines) && TextAt(s, a, Lines(lines) + rest)
    ensures next == a + |Lines(lines)| <= |s| && TextAt(s, next, rest)
    ensures NextFrame(s, a, any, length) == NextFrame(s, next, any || lines != [], length)
    ensures HeadersFit(s, next, any || lines != []) ==> HeadersFit(s, a, any)
    decreases |lines|
  {
    hide AgreesFrom, NextFrame, HeadersFit, KeyAt;
    if lines == [] {
      assert [] + rest == rest;
      next := a;
    } else {
      assert OtherLine(lines[0]);
      AppendAssociates(lines[0] + [LF], Lines(lines[1..]), rest);
      var second := LineAt(s, a, lines[0], Lines(lines[1..]) + rest);
      OtherPasses(s, a, second, lines[0], any, length);
      next := OthersPass(s, second, lines[1..], rest, true, length);
    }
  }

  /** A length line counts whatever an earlier one said. */
  lemma LengthPasses(s: bytes, a: nat, l: LengthText, n: nat, any: bool, length: Option<nat>)
    requires Announces(l, n) && TextAt(s, a, TextOf(l) + [LF])
    ensures var q := a + |TextOf(l)| + 1;
            && q <= |s| && NextFrame(s, a, any, length) == NextFrame(s, q, true, Some(n))
            && (HeadersFit(s, q, true) ==> HeadersFit(s, a, any))
  {
    hide AgreesFrom, Strtoul, KeyAt, HasVisible;
    LengthIs(s, a, l, n);
  }

  lemma EmptyLineAt(s: bytes, a: nat, cr: bool, rest: bytes) returns (next: nat)
    requires TextAt(s, a, EmptyLine(cr) + rest)
    ensures a < next == a + |EmptyLine(cr)| <= |s| && TextAt(s, next, rest)
    ensures LineEnd(s, a) == next - 1 && BlankHeader(s, a, next - 1) && (s[a] == CR || s[a] == LF)
  {
    hide AgreesFrom;
    next := a + |EmptyLine(cr)|;
    TextAtSplit(s, a, EmptyLine(cr), rest);
    TextAtByte(s, a, EmptyLine(cr), 0);
    if cr { TextAtByte(s, a, EmptyLine(cr), 1); }
    LineEndIs(s, a, next - 1);
  }

  /** Up to the body, which the length line gives. */
  lemma HeadersWith(
      s: bytes, a: nat, before: seq<bytes>, l: LengthText, n: nat, behind: seq<bytes>, cr: bool, body: bytes)
    returns (at: nat)
    requires Others(before) && Others(behind) && Announces(l, n) && TextAt(s, a, FrameWith(before, l, behind, cr, body))
    ensures at <= |s| && at + |body| == a + |FrameWith(before, l, behind, cr, body)| && TextAt(s, at, body)
    ensures NextFrame(s, a, false, None) == BodyAt(s, at, Some(n)) && HeadersFit(s, a, false)
  {
    hide AgreesFrom, Others, Announces, Lines, TextOf, EmptyLine, BodyAt;
    var tail := Lines(behind) + (EmptyLine(cr) + body);
    var p := OthersPass(s, a, before, (TextOf(l) + [LF]) + tail, false, None);
    TextAtSplit(s, p, TextOf(l) + [LF], tail);
    LengthPasses(s, p, l, n, before != [], None);
    var q := p + |TextOf(l)| + 1;
    var r := OthersPass(s, q, behind, EmptyLine(cr) + body, true, Some(n));
    at := EmptyLineAt(s, r, cr, body);
    BlankGives(s, r, at, Some(n));
  }

  lemma BlankGives(s: bytes, a: nat, next: nat, length: Option<nat>)
    requires a < next <= |s| && LineEnd(s, a) == next - 1 && BlankHeader(s, a, next - 1)
    ensures NextFrame(s, a, true, length) == BodyAt(s, next, length) && HeadersFit(s, a, true)
  {
    hide BodyAt;
  }

  /**
   * However its header is written the reader finds a frame's body, if it is 1 byte to 16 MiB and there: other
   * lines beside the length line, the key in any case, blanks, zeros before the number, text behind it, newlines
   * with carriage returns or without.
   */
  lemma FrameWithIsRead(
      s: bytes, a: nat, before: seq<bytes>, l: LengthText, n: nat, behind: seq<bytes>, cr: bool, body: bytes)
    requires Others(before) && Others(behind) && Announces(l, n) && TextAt(s, a, FrameWith(before, l, behind, cr, body))
    ensures HeadersFit(s, a, false)
    ensures 0 < n == |body| <= MAX_MESSAGE ==>
              NextFrame(s, a, false, None) ==
              Step(Some(body), ContentLength, a + |FrameWith(before, l, behind, cr, body)|)
    ensures n == 0 || n > MAX_MESSAGE || n > |s| ==> NextFrame(s, a, false, None).message.None?
  {
    hide AgreesFrom, NextFrame, HeadersFit, FrameWith, Others, Announces;
    var at := HeadersWith(s, a, before, l, n, behind, cr, body);
    TextAtSlice(s, at, body);
  }

  /** A header without a length line gives no message. */
  lemma LengthMissing(s: bytes, a: nat, lines: seq<bytes>, cr: bool, rest: bytes)
    requires lines != [] && Others(lines) && TextAt(s, a, Lines(lines) + (EmptyLine(cr) + rest))
    ensures NextFrame(s, a, false, None).message.None?
  {
    hide AgreesFrom, Others, Lines, EmptyLine;
    var p := OthersPass(s, a, lines, EmptyLine(cr) + rest, false, None);
    var q := EmptyLineAt(s, p, cr, rest);
  }

  // ---------------------------------------------------------------- received at either end of a connection

  lemma OneIgnored(s: bytes, a: nat, next: nat, t: bytes, end: C.End, length: Option<nat>)
    requires OtherLine(t) && a < next == a + |t| + 1 <= |s| && LineEnd(s, a) == next - 1 && s[a] == t[0]
    requires s[a..next] == t + [LF]
    ensures C.ReadHeaders(s, a, end, length) == C.ReadHeaders(s, next, end, length)
  {
  }

  lemma {:induction false} OthersIgnored(
      s: bytes, a: nat, lines: seq<bytes>, rest: bytes, end: C.End, length: Option<nat>) returns (next: nat)
    requires Others(lines) && TextAt(s, a, Lines(lines) + rest)
    ensures next == a + |Lines(lines)| <= |s| && TextAt(s, next, rest)
    ensures C.ReadHeaders(s, a, end, length) == C.ReadHeaders(s, next, end, length)
    decreases |lines|
  {
    hide AgreesFrom, C.ReadHeaders, KeyAt;
    if lines == [] {
      assert [] + rest == rest;
      next := a;
    } else {
      assert OtherLine(lines[0]);
      AppendAssociates(lines[0] + [LF], Lines(lines[1..]), rest);
      var second := LineAt(s, a, lines[0], Lines(lines[1..]) + rest);
      OneIgnored(s, a, second, lines[0], end, length);
      next := OthersIgnored(s, second, lines[1..], rest, end, length);
    }
  }

  /** A length line by itself says its number to either end. */
  lemma GivesNumber(l: LengthText, n: nat, end: C.End)
    requires Announces(l, n)
    ensures var line := TextOf(l) + [LF];
            C.GivesLength(line, end) && |KEY| <= |line| && Strtoul(line, |KEY|, |line|) == n
  {
    hide AgreesFrom, Strtoul, KeyAt, HasVisible, TextOf;
    var line := TextOf(l) + [LF];
    TextAtWhole(line);
    LengthIs(line, 0, l, n);
    StrtoulOwnLine(line, |KEY|, |line| - 1, |line|);
    KeyIsNoNul(l, n);
  }

  /** Up to the first digit there is no NUL. */
  lemma KeyIsNoNul(l: LengthText, n: nat)
    requires Announces(l, n)
    ensures |CString(TextOf(l) + [LF])| > |KEY|
  {
    hide TextOf, Announces;
    StartIsNoNul(l, n, |KEY|);
    var m := |CString(TextOf(l) + [LF])|;
    if m <= |KEY| { StartIsNoNul(l, n, m); }
  }

  lemma StartIsNoNul(l: LengthText, n: nat, k: nat)
    requires Announces(l, n) && k <= |KEY|
    ensures k < |TextOf(l)| && TextOf(l)[k] != NUL
  {
    if k < |KEY| {
      KeyIsVisible(k);
      assert SameLetter(l.key[k], KEY[k]);
    } else {
      assert k == |l.key|;
    }
  }

  lemma LengthCounts(s: bytes, a: nat, l: LengthText, n: nat, end: C.End, length: Option<nat>)
    requires Announces(l, n) && TextAt(s, a, TextOf(l) + [LF])
    ensures var q := a + |TextOf(l)| + 1;
            q <= |s| && C.ReadHeaders(s, a, end, length) == C.ReadHeaders(s, q, end, Some(n))
  {
    hide AgreesFrom, Strtoul, KeyAt, HasVisible, C.GivesLength;
    LengthIs(s, a, l, n);
    GivesNumber(l, n, end);
    TextAtSlice(s, a, TextOf(l) + [LF]);
  }

  lemma BlankStops(s: bytes, a: nat, next: nat, end: C.End, length: Option<nat>)
    requires a < next <= a + 2 && next <= |s| && LineEnd(s, a) == next - 1 && (s[a] == CR || s[a] == LF)
    ensures C.ReadHeaders(s, a, end, length) == C.Headers(length, next)
  {
  }

  /** So do both ends of a connection, each up to its own size. */
  lemma FrameWithArrives(s: bytes, a: nat, before: seq<bytes>, l: LengthText, n: nat, behind: seq<bytes>, cr: bool,
                         body: bytes, end: C.End)
    requires Others(before) && Others(behind) && Announces(l, n) && TextAt(s, a, FrameWith(before, l, behind, cr, body))
    ensures 0 < n == |body| <= C.BodyLimit(end) ==>
              C.FrameAt(s, a, end) == Some(C.Received(body, a + |FrameWith(before, l, behind, cr, body)|))
    ensures n == 0 || n > C.BodyLimit(end) || n > |s| ==> C.FrameAt(s, a, end).None?
  {
    hide AgreesFrom, Others, Announces, Lines, TextOf, C.ReadHeaders;
    var tail := Lines(behind) + (EmptyLine(cr) + body);
    var p := OthersIgnored(s, a, before, (TextOf(l) + [LF]) + tail, end, None);
    TextAtSplit(s, p, TextOf(l) + [LF], tail);
    LengthCounts(s, p, l, n, end, None);
    var q := p + |TextOf(l)| + 1;
    var r := OthersIgnored(s, q, behind, EmptyLine(cr) + body, end, Some(n));
    var at := EmptyLineAt(s, r, cr, body);
    BlankStops(s, r, at, end, Some(n));
    TextAtSlice(s, at, body);
  }

  /** A header line of 255 bytes without a newline ends the header: before the length line it loses the frame. */
  lemma LongLineLoses(s: bytes, a: nat, end: C.End)
    requires a + C.LINE_ROOM <= |s| && forall k :: a <= k < a + C.LINE_ROOM ==> s[k] != LF
    ensures C.FrameAt(s, a, end).None?
  {
    NoEndBefore(s, a, a + C.LINE_ROOM);
  }
}
