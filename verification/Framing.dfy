/** What a byte stream of framed messages means, as functions of the stream and a position in it. */
module Framing {
  import opened Bytes
  import Decimal

  const MAX_MESSAGE: nat := 0x100_0000
  const MAX_BUFFERED_HEADER: nat := 1024
  const KEY: bytes :=
    [0x63, 0x6F, 0x6E, 0x74, 0x65, 0x6E, 0x74, 0x2D, 0x6C, 0x65, 0x6E, 0x67, 0x74, 0x68, 0x3A]

  datatype Kind = Unknown | Ndjson | ContentLength

  predicate IsSpace(b: byte) {
    b == SPACE || b == TAB || b == CR || b == LF
  }

  /** The first newline at or after `i`, or the end. */
  function LineEnd(s: bytes, i: nat): (r: nat)
    requires i <= |s|
    ensures i <= r <= |s|
    ensures r < |s| ==> s[r] == LF
    decreases |s| - i
  {
    if i < |s| && s[i] != LF then LineEnd(s, i + 1) else i
  }

  // ---------------------------------------------------------------- detection

  predicate MarkAt(s: bytes, i: nat) {
    i + 3 <= |s| && s[i] == 0xEF && s[i + 1] == 0xBB && s[i + 2] == 0xBF
  }

  /** Past the white space and byte-order marks at `i`. */
  function SkipMarks(s: bytes, i: nat): (r: nat)
    requires i <= |s|
    ensures i <= r <= |s|
    decreases |s| - i
  {
    if i < |s| && IsSpace(s[i]) then SkipMarks(s, i + 1)
    else if MarkAt(s, i) then SkipMarks(s, i + 3)
    else i
  }

  /** The first `n` bytes at `i` are those of the header key, in either case. */
  predicate KeyPrefix(s: bytes, i: nat, n: nat)
    requires n <= |KEY|
  {
    n == 0 || (KeyPrefix(s, i, n - 1) && i + n - 1 < |s| && Lower(s[i + n - 1]) == KEY[n - 1])
  }

  predicate KeyAt(s: bytes, i: nat) {
    KeyPrefix(s, i, |KEY|)
  }

  // ---------------------------------------------------------------- newline-delimited messages

  function TrimLeft(s: bytes, a: nat, e: nat): (r: nat)
    requires a <= e <= |s|
    ensures a <= r <= e
    decreases e - a
  {
    if a < e && IsSpace(s[a]) then TrimLeft(s, a + 1, e) else a
  }

  function TrimRight(s: bytes, a: nat, e: nat): (r: nat)
    requires a <= e <= |s|
    ensures a <= r <= e
  {
    if a < e && IsSpace(s[e - 1]) then TrimRight(s, a, e - 1) else e
  }

  /** `s[a..e]` without white space at either end. */
  function Trimmed(s: bytes, a: nat, e: nat): bytes
    requires a <= e <= |s|
  {
    var b := TrimLeft(s, a, e);
    s[b..TrimRight(s, b, e)]
  }

  /** What one call reads: a message or nothing, the framing in force, and where the stream is left. */
  datatype Step = Step(message: Option<bytes>, kind: Kind, at: nat)

  /** The next line that is not blank; 16 MiB without a newline are dropped. */
  function NextLine(s: bytes, a: nat): (r: Step)
    requires a <= |s|
    ensures a <= r.at <= |s| && r.kind == Ndjson && (r.message.Some? ==> a < r.at)
    decreases |s| - a
  {
    var e := LineEnd(s, a);
    if e - a >= MAX_MESSAGE then Step(None, Ndjson, a + MAX_MESSAGE)
    else
      var line := Trimmed(s, a, e);
      if e == |s| then Step(if line == [] then None else Some(line), Ndjson, e)
      else if line == [] then NextLine(s, e + 1)
      else Step(Some(line), Ndjson, e + 1)
  }

  // ---------------------------------------------------------------- Content-Length messages

  const ULONG_RANGE: nat := 0x1_0000_0000_0000_0000

  /** `isspace` of the C locale. */
  predicate IsCSpace(b: byte) {
    9 <= b <= 13 || b == SPACE
  }

  function CSpaceEnd(s: bytes, i: nat, e: nat): (r: nat)
    requires i <= e <= |s|
    ensures i <= r <= e && (r < e ==> !IsCSpace(s[r]))
    decreases e - i
  {
    if i < e && IsCSpace(s[i]) then CSpaceEnd(s, i + 1, e) else i
  }

  /** `strtoul(.., 10)` on the text `s[i..e]`: saturates above 64 bits, a minus sign wraps around. */
  function Strtoul(s: bytes, i: nat, e: nat): (r: nat)
    requires i <= e <= |s|
  {
    var j := CSpaceEnd(s, i, e);
    var k := if j < e && (s[j] == PLUS || s[j] == MINUS) then j + 1 else j;
    Decimal.DigitsEndSpans(s, k, e);
    var n := Decimal.Value(s, k, Decimal.DigitsEnd(s, k, e));
    if n >= ULONG_RANGE then ULONG_RANGE - 1
    else if j < e && s[j] == MINUS && n > 0 then ULONG_RANGE - n
    else n
  }

  /** The line `s[a..e]`, whose newline is at `e`, ends a header block. */
  predicate BlankHeader(s: bytes, a: nat, e: nat)
    requires a <= e <= |s|
  {
    e == a || (e == a + 1 && s[a] == CR)
  }

  /** The length the header line `s[a..e]` gives, if it is a Content-Length line. */
  function HeaderLength(s: bytes, a: nat, e: nat): Option<nat>
    requires a <= e <= |s|
  {
    if e - a >= |KEY| && KeyAt(s, a) then Some(Strtoul(s, a + |KEY|, e)) else None
  }

  /** Header lines from `a` on; `any` tells that one was read already, `length` what they gave so far. */
  function NextFrame(s: bytes, a: nat, any: bool, length: Option<nat>): (r: Step)
    requires a <= |s|
    ensures a <= r.at <= |s| && r.kind == ContentLength && (r.message.Some? ==> a < r.at)
    decreases |s| - a
  {
    var e := LineEnd(s, a);
    if e == |s| then Step(None, ContentLength, a)
    else if !BlankHeader(s, a, e) then
      var given := HeaderLength(s, a, e);
      NextFrame(s, e + 1, true, if given.Some? then given else length)
    else if any then BodyAt(s, e + 1, length)
    else NextFrame(s, e + 1, any, length)
  }

  function BodyAt(s: bytes, a: nat, length: Option<nat>): (r: Step)
    requires a <= |s|
    ensures a <= r.at <= |s| && r.kind == ContentLength && (r.message.Some? ==> a < r.at)
  {
    if length.Some? && 0 < length.value <= MAX_MESSAGE && a + length.value <= |s| then
      Step(Some(s[a..a + length.value]), ContentLength, a + length.value)
    else
      Step(None, ContentLength, a)
  }

  // ---------------------------------------------------------------- a call, and all calls

  function Detected(s: bytes, a: nat): Kind {
    if KeyAt(s, a) then ContentLength else Ndjson
  }

  function Next(s: bytes, kind: Kind, a: nat): (r: Step)
    requires a <= |s|
    ensures r.message.Some? ==> r.kind != Unknown
    ensures kind != Unknown ==> r.kind == kind
    ensures a <= r.at <= |s| && (r.message.Some? ==> a < r.at)
  {
    match kind
    case Ndjson => NextLine(s, a)
    case ContentLength => NextFrame(s, a, false, None)
    case Unknown =>
      var b := SkipMarks(s, a);
      if b == |s| then Step(None, Unknown, b)
      else if KeyAt(s, b) then NextFrame(s, b, false, None)
      else NextLine(s, b)
  }

  /** The messages read from `a` on, up to the first call that reads nothing. */
  function Messages(s: bytes, kind: Kind, a: nat): seq<bytes>
    requires a <= |s|
    decreases |s| - a
  {
    var r := Next(s, kind, a);
    if r.message.None? then [] else [r.message.value] + Messages(s, r.kind, r.at)
  }

  // ---------------------------------------------------------------- streams whose reading is determined

  /** Bytes other than white space occur in `s[i..e]`. */
  predicate HasVisible(s: bytes, i: nat, e: nat)
    requires i <= e <= |s|
  {
    CSpaceEnd(s, i, e) < e
  }

  /**
   * The header lines from `a` on are at most 1025 bytes long with their newline, and every
   * Content-Length value is on its own line.
   */
  predicate HeadersFit(s: bytes, a: nat, any: bool)
    requires a <= |s|
    decreases |s| - a
  {
    var e := LineEnd(s, a);
    || e == |s|
    || (BlankHeader(s, a, e) && (any || HeadersFit(s, e + 1, any)))
    || (!BlankHeader(s, a, e)
        && e - a <= MAX_BUFFERED_HEADER
        && (e - a >= |KEY| && KeyAt(s, a) ==> HasVisible(s, a + |KEY|, e))
        && HeadersFit(s, e + 1, true))
  }

  predicate Fits(s: bytes, kind: Kind, a: nat)
    requires a <= |s|
  {
    match kind
    case Ndjson => true
    case ContentLength => HeadersFit(s, a, false)
    case Unknown => KeyAt(s, SkipMarks(s, a)) ==> HeadersFit(s, SkipMarks(s, a), false)
  }

  /** Every call up to the first that reads nothing finds fitting headers. */
  predicate AllFit(s: bytes, kind: Kind, a: nat)
    requires a <= |s|
    decreases |s| - a
  {
    && Fits(s, kind, a)
    && (Next(s, kind, a).message.Some? ==> AllFit(s, Next(s, kind, a).kind, Next(s, kind, a).at))
  }

  // ---------------------------------------------------------------- strtoul stays on a non-blank line

  ghost predicate Window(s: bytes, base: nat, t: bytes) {
    base + |t| <= |s| && forall k :: 0 <= k < |t| ==> t[k] == s[base + k]
  }

  lemma {:induction false} SpacesOwnLine(s: bytes, i: nat, e: nat, g: nat)
    requires i <= e <= g <= |s| && HasVisible(s, i, e)
    ensures CSpaceEnd(s, i, g) == CSpaceEnd(s, i, e)
    decreases e - i
  {
    if IsCSpace(s[i]) { SpacesOwnLine(s, i + 1, e, g); }
  }

  lemma {:induction false} DigitsOwnLine(s: bytes, i: nat, e: nat, g: nat)
    requires i <= e < g <= |s| && s[e] == LF
    ensures Decimal.DigitsEnd(s, i, g) == Decimal.DigitsEnd(s, i, e)
    decreases e - i
  {
    if i < e && IsDigit(s[i]) { DigitsOwnLine(s, i + 1, e, g); }
  }

  lemma {:induction false} ValueInWindow(s: bytes, base: nat, t: bytes, i: nat, e: nat)
    requires Window(s, base, t) && i <= e <= |t| && forall k :: i <= k < e ==> IsDigit(t[k])
    requires forall k :: base + i <= k < base + e ==> IsDigit(s[k])
    ensures Decimal.Value(t, i, e) == Decimal.Value(s, base + i, base + e)
    decreases e - i
  {
    if i < e { ValueInWindow(s, base, t, i, e - 1); }
  }

  lemma {:induction false} SpacesInWindow(s: bytes, base: nat, t: bytes, i: nat)
    requires Window(s, base, t) && i <= |t|
    ensures base + CSpaceEnd(t, i, |t|) == CSpaceEnd(s, base + i, base + |t|)
    decreases |t| - i
  {
    if i < |t| && IsCSpace(t[i]) { SpacesInWindow(s, base, t, i + 1); }
  }

  lemma {:induction false} DigitsInWindow(s: bytes, base: nat, t: bytes, i: nat)
    requires Window(s, base, t) && i <= |t|
    ensures base + Decimal.DigitsEnd(t, i, |t|) == Decimal.DigitsEnd(s, base + i, base + |t|)
    decreases |t| - i
  {
    if i < |t| && IsDigit(t[i]) { DigitsInWindow(s, base, t, i + 1); }
  }

  /** strtoul over a window is strtoul over that part of the stream. */
  lemma StrtoulInWindow(s: bytes, base: nat, t: bytes, i: nat)
    requires Window(s, base, t) && i <= |t|
    ensures Strtoul(t, i, |t|) == Strtoul(s, base + i, base + |t|)
  {
    SpacesInWindow(s, base, t, i);
    var j := CSpaceEnd(t, i, |t|);
    var k := if j < |t| && (t[j] == PLUS || t[j] == MINUS) then j + 1 else j;
    DigitsInWindow(s, base, t, k);
    Decimal.DigitsEndSpans(t, k, |t|);
    Decimal.DigitsEndSpans(s, base + k, base + |t|);
    ValueInWindow(s, base, t, k, Decimal.DigitsEnd(t, k, |t|));
  }

  /** With a visible byte before the newline at `e`, strtoul does not look behind that newline. */
  lemma StrtoulOwnLine(s: bytes, i: nat, e: nat, g: nat)
    requires i <= e < g <= |s| && s[e] == LF && HasVisible(s, i, e)
    ensures Strtoul(s, i, g) == Strtoul(s, i, e)
  {
    SpacesOwnLine(s, i, e, g);
    var j := CSpaceEnd(s, i, e);
    DigitsOwnLine(s, if s[j] == PLUS || s[j] == MINUS then j + 1 else j, e, g);
  }

  /**
   * strtoul from `i` on with the stream buffered up to `g`: the buffer has no terminator, so it goes on into
   * the memory behind if nothing stops it before.
   */
  function StrtoulSeen(s: bytes, i: nat, g: nat, memory: bytes): nat
    requires i <= g <= |s|
  {
    Strtoul(s[..g] + memory, i, g + |memory|)
  }

  lemma StrtoulOfFront(s: bytes, t: bytes, i: nat, e: nat)
    requires i <= e <= |s| && e <= |t| && s[..e] == t[..e]
    ensures Strtoul(s, i, e) == Strtoul(t, i, e)
  {
    StrtoulInWindow(s, 0, s[..e], i);
    StrtoulInWindow(t, 0, t[..e], i);
  }

  /** With a visible byte before the newline at `e` that is the number on the line, whatever is buffered behind. */
  lemma StrtoulSeenIs(s: bytes, i: nat, e: nat, g: nat, memory: bytes)
    requires i <= e < g <= |s| && s[e] == LF && HasVisible(s, i, e)
    ensures StrtoulSeen(s, i, g, memory) == Strtoul(s, i, e)
  {
    var t := s[..g] + memory;
    assert s[..e] == t[..e];
    SpacesOfFront(s, t, i, e);
    StrtoulOwnLine(t, i, e, |t|);
    StrtoulOfFront(s, t, i, e);
  }

  lemma {:induction false} SpacesOfFront(s: bytes, t: bytes, i: nat, e: nat)
    requires i <= e <= |s| && e <= |t| && s[..e] == t[..e]
    ensures CSpaceEnd(s, i, e) == CSpaceEnd(t, i, e)
    decreases e - i
  {
    if i < e {
      assert s[i] == s[..e][i] == t[..e][i] == t[i];
      if IsCSpace(s[i]) { SpacesOfFront(s, t, i + 1, e); }
    }
  }

  /** The length after the header line `s[a..e]`, read with the stream buffered up to `g`. */
  function LengthSeen(s: bytes, a: nat, e: nat, g: nat, memory: bytes, length: Option<nat>): Option<nat>
    requires a <= e < g <= |s|
  {
    if e - a >= |KEY| && KeyAt(s, a) then Some(StrtoulSeen(s, a + |KEY|, g, memory)) else length
  }

  /** Consuming a fitting header line that is not blank, whatever is buffered behind it. */
  lemma FieldSeen(s: bytes, a: nat, e: nat, g: nat, memory: bytes, any: bool, length: Option<nat>)
    requires a <= e < g <= |s| && e == LineEnd(s, a) && !BlankHeader(s, a, e) && HeadersFit(s, a, any)
    ensures HeadersFit(s, e + 1, true)
    ensures NextFrame(s, a, any, length) == NextFrame(s, e + 1, true, LengthSeen(s, a, e, g, memory, length))
  {
    if e - a >= |KEY| && KeyAt(s, a) { StrtoulSeenIs(s, a + |KEY|, e, g, memory); }
  }

  // ---------------------------------------------------------------- a first line read in one piece

  /** The frame whose length line at `a` is read with the stream buffered up to `g`. */
  function FrameSeen(s: bytes, a: nat, g: nat, memory: bytes): Step
    requires a <= |s| && a + |KEY| <= LineEnd(s, a) < g <= |s|
  {
    NextFrame(s, LineEnd(s, a) + 1, true, Some(StrtoulSeen(s, a + |KEY|, g, memory)))
  }

  lemma {:induction false} LineEndAfterKey(s: bytes, a: nat, n: nat)
    requires n <= |KEY| && KeyPrefix(s, a, n) && a <= |s|
    ensures a + n <= |s| && LineEnd(s, a) == LineEnd(s, a + n)
  {
    if n > 0 { LineEndAfterKey(s, a, n - 1); }
  }

  lemma KeyLine(s: bytes, a: nat)
    requires a <= |s| && KeyAt(s, a)
    ensures a + |KEY| <= LineEnd(s, a) && !BlankHeader(s, a, LineEnd(s, a))
  {
    LineEndAfterKey(s, a, |KEY|);
  }

  /** With its number on its own line, what is buffered makes no difference. */
  lemma FrameSeenIs(s: bytes, a: nat, g: nat, memory: bytes)
    requires a <= |s| && KeyAt(s, a) && a + |KEY| <= LineEnd(s, a) < g <= |s| && HasVisible(s, a + |KEY|, LineEnd(s, a))
    ensures FrameSeen(s, a, g, memory) == NextFrame(s, a, false, None)
  {
    KeyLine(s, a);
    StrtoulSeenIs(s, a + |KEY|, LineEnd(s, a), g, memory);
  }

  // ---------------------------------------------------------------- a length line without a number

  lemma {:induction false} BlanksThrough(s: bytes, i: nat, e: nat, g: nat)
    requires i <= e <= g <= |s| && !HasVisible(s, i, e)
    ensures CSpaceEnd(s, i, g) == CSpaceEnd(s, e, g)
    decreases e - i
  {
    if i < e { BlanksThrough(s, i + 1, e, g); }
  }

  lemma StrtoulSkips(s: bytes, i: nat, j: nat, g: nat)
    requires i <= g <= |s| && j <= g && CSpaceEnd(s, i, g) == CSpaceEnd(s, j, g)
    ensures Strtoul(s, i, g) == Strtoul(s, j, g)
  {
  }

  /** With only blanks up to the newline at `e` and no more buffered, strtoul gives what the memory behind holds. */
  lemma StrtoulOfMemory(s: bytes, i: nat, e: nat, memory: bytes)
    requires i <= e < |s| && s[e] == LF && !HasVisible(s, i, e)
    ensures StrtoulSeen(s, i, e + 1, memory) == Strtoul(memory, 0, |memory|)
  {
    hide Strtoul;
    var t := s[..e + 1] + memory;
    assert s[..e] == t[..e] && t[e] == s[e];
    SpacesOfFront(s, t, i, e);
    BlanksThrough(t, i, e, |t|);
    assert CSpaceEnd(t, e, |t|) == CSpaceEnd(t, e + 1, |t|);
    StrtoulSkips(t, i, e + 1, |t|);
    StrtoulInWindow(t, e + 1, memory, 0);
  }

  /** With the next line buffered too, it gives the number at the start of that line. */
  lemma StrtoulOfNextLine(s: bytes, i: nat, e: nat, f: nat, memory: bytes)
    requires i <= e < f < |s| && s[e] == LF && !HasVisible(s, i, e) && s[f] == LF && HasVisible(s, e + 1, f)
    ensures StrtoulSeen(s, i, f + 1, memory) == Strtoul(s, e + 1, f)
  {
    var t := s[..f + 1] + memory;
    assert s[..f] == t[..f] && t[f] == s[f] && t[e] == s[e] && s[..e] == t[..e];
    SpacesOfFront(s, t, i, e);
    SpacesOfFront(s, t, e + 1, f);
    BlanksThrough(t, i, e, |t|);
    assert CSpaceEnd(t, e, |t|) == CSpaceEnd(t, e + 1, |t|);
    StrtoulSkips(t, i, e + 1, |t|);
    StrtoulOwnLine(t, e + 1, f, |t|);
    StrtoulOfFront(s, t, e + 1, f);
  }
}
