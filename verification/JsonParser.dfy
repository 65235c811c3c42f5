/** The recursive-descent parser over its mutable buffer, against the grammar functions. */
module JsonParser {
  import opened Bytes
  import opened JsonText
  import A = JsonAccepted
  import G = JsonGrammar
  import Utf

  // ---------------------------------------------------------------- the first pass of a string

  /** From the token boundary `i`, is `p` a boundary too? An escape is a token of two bytes. */
  ghost predicate Boundary(c: bytes, i: nat, p: nat)
    requires p <= |c|
    decreases |c| - i
  {
    i == p || (i < p && Boundary(c, if c[i] == BACKSLASH then i + 2 else i + 1, p))
  }

  /** How many escapes start at or after the boundary `i` and before `p`. */
  ghost function Escapes(c: bytes, i: nat, p: nat): nat
    requires p <= |c|
    decreases |c| - i
  {
    if i >= p then 0 else if c[i] == BACKSLASH then 1 + Escapes(c, i + 2, p) else Escapes(c, i + 1, p)
  }

  ghost predicate EscapeStarts(c: bytes, i: nat, p: nat)
    requires p < |c|
  {
    Boundary(c, i, p) && c[p] == BACKSLASH
  }

  lemma {:induction false} EscapesNext(c: bytes, i: nat, p: nat)
    requires i <= p < |c|
    ensures Escapes(c, i, p + 1) == Escapes(c, i, p) + (if EscapeStarts(c, i, p) then 1 else 0)
    ensures EscapeStarts(c, i, p) ==> !Boundary(c, i, p + 1)
    decreases |c| - i
  {
    if i < p {
      var next := if c[i] == BACKSLASH then i + 2 else i + 1;
      if next <= p {
        EscapesNext(c, next, p);
      } else {
        assert Escapes(c, next, p) == 0 && Escapes(c, next, p + 1) == 0;
        assert !Boundary(c, next, p) && (c[i] == BACKSLASH ==> next == p + 1);
      }
    }
  }

  lemma {:induction false} BoundaryStep(c: bytes, i: nat, p: nat)
    requires i <= p < |c| && Boundary(c, i, p)
    ensures c[p] != BACKSLASH ==> Boundary(c, i, p + 1) && Escapes(c, i, p + 1) == Escapes(c, i, p)
    ensures c[p] == BACKSLASH && p + 2 <= |c| ==>
              Boundary(c, i, p + 2) && Escapes(c, i, p + 2) == Escapes(c, i, p) + 1
    decreases |c| - i
  {
    if i < p { BoundaryStep(c, if c[i] == BACKSLASH then i + 2 else i + 1, p); }
  }

  /** What the first pass leaves for the output when the second pass has come to `p`. */
  ghost function Room(c: bytes, s: nat, p: nat): int
    requires s <= p <= |c|
  {
    p - s - Escapes(c, s, p)
  }

  lemma RoomNext(c: bytes, s: nat, p: nat)
    requires s <= p < |c|
    ensures Room(c, s, p + 1) == Room(c, s, p) + (if EscapeStarts(c, s, p) then 0 else 1)
    ensures c[p] != BACKSLASH ==> Room(c, s, p + 1) == Room(c, s, p) + 1
  {
    EscapesNext(c, s, p);
  }

  /** Any two bytes leave room for one, wherever the second pass stands. */
  lemma RoomForTwo(c: bytes, s: nat, p: nat)
    requires s <= p && p + 2 <= |c|
    ensures Room(c, s, p + 2) >= Room(c, s, p) + 1
  {
    EscapesNext(c, s, p);
    EscapesNext(c, s, p + 1);
  }

  lemma {:induction false} RoomForPairs(c: bytes, s: nat, p: nat, n: nat)
    requires s <= p && p + 2 * n <= |c|
    ensures Room(c, s, p + 2 * n) >= Room(c, s, p) + n
  {
    if n > 0 {
      RoomForPairs(c, s, p, n - 1);
      RoomForTwo(c, s, p + 2 * n - 2);
    }
  }

  lemma {:induction false} RoomMonotone(c: bytes, s: nat, p: nat, q: nat)
    requires s <= p <= q <= |c|
    ensures Room(c, s, p) <= Room(c, s, q)
    decreases q
  {
    if p < q {
      RoomMonotone(c, s, p, q - 1);
      RoomNext(c, s, q - 1);
    }
  }

  /** A two-byte escape leaves room for its byte, even when it runs into the closing quote at `e`. */
  lemma EscapeFits(c: bytes, s: nat, i: nat, e: nat)
    requires s <= i < e < |c| && Boundary(c, s, e) && c[i] == BACKSLASH
    ensures Room(c, s, i) + 1 <= Room(c, s, if i + 2 <= e then i + 2 else e) <= Room(c, s, e)
  {
    if i + 2 <= e {
      RoomForTwo(c, s, i);
      RoomMonotone(c, s, i + 2, e);
    } else {
      EscapesNext(c, s, i);
    }
  }

  /** A `\u` escape leaves room for its UTF-8 bytes, whatever pairs the first pass saw inside it. */
  lemma LiteralFits(c: bytes, s: nat, i: nat, e: nat)
    requires s <= i < e < |c| && Utf.LiteralAt(c, i, e).Some?
    ensures var l := Utf.LiteralAt(c, i, e).value;
            Room(c, s, i) + |Utf.Encode(l.codePoint)| <= Room(c, s, i + l.length) <= Room(c, s, e)
  {
    var l := Utf.LiteralAt(c, i, e).value;
    RoomForPairs(c, s, i, l.length / 2);
    RoomMonotone(c, s, i + l.length, e);
  }

  // ---------------------------------------------------------------- the parser

  function Prefixed<T>(front: seq<T>, rest: Option<G.Parsed<seq<T>>>): Option<G.Parsed<seq<T>>> {
    if rest.Some? then Some(G.Parsed(front + rest.value.value, rest.value.next)) else None
  }

  /**
   * How far a list loop has come: with `more` it stands just before the items `rest` reads, otherwise
   * behind the last one, where the closing byte is due.
   */
  ghost predicate ListProgress<T>(
      c: bytes, close: byte, whole: Option<G.Parsed<seq<T>>>, done: seq<T>, rest: Option<G.Parsed<seq<T>>>,
      offset: nat, more: bool)
  {
    if more then offset < |c| && whole == Prefixed(done, rest)
    else if offset < |c| && c[offset] == close then whole == Some(G.Parsed(done, offset + 1))
    else whole.None?
  }

  lemma ListStart<T>(c: bytes, p: nat, close: byte, whole: Option<G.Parsed<seq<T>>>)
    requires 0 < p <= |c|
    ensures ListProgress(c, close, whole, [], whole, p - 1, true)
  {
    if whole.Some? { assert [] + whole.value.value == whole.value.value; }
  }

  /** Reading one more value moves the progress on by it; `tail` reads what follows a comma. */
  lemma ParseElementsStep(
      c: bytes, offset: nat, room: nat, whole: Option<G.Parsed<seq<Json>>>, done: seq<Json>,
      rest: Option<G.Parsed<seq<Json>>>,
      first: Option<G.Parsed<Json>>, q: nat)
    returns (tail: Option<G.Parsed<seq<Json>>>)
    requires ListProgress(c, RBRACKET, whole, done, rest, offset, true)
    requires rest == G.ParseElements(c, offset + 1, room)
    requires first == G.ParseValue(c, G.Skip(c, offset + 1), room)
    requires first.Some? ==> q == G.Skip(c, first.value.next)
    ensures first.None? ==> whole.None?
    ensures first.Some? ==>
              && ListProgress(c, RBRACKET, whole, done + [first.value.value], tail, q, q < |c| && c[q] == COMMA)
              && (q < |c| && c[q] == COMMA ==> tail == G.ParseElements(c, q + 1, room))
  {
    hide G.ParseValue, G.Skip;
    tail := None;
    if first.Some? && q < |c| && c[q] == COMMA {
      tail := G.ParseElements(c, q + 1, room);
      PrefixedConsed(done, first.value.value, tail);
    }
  }

  /** Reading one more member moves the progress on by it; `tail` reads what follows a comma. */
  lemma ParseMembersStep(
      c: bytes, offset: nat, room: nat, whole: Option<G.Parsed<seq<Member>>>, done: seq<Member>,
      rest: Option<G.Parsed<seq<Member>>>,
      first: Option<G.Parsed<Member>>, q: nat)
    returns (tail: Option<G.Parsed<seq<Member>>>)
    requires ListProgress(c, RBRACE, whole, done, rest, offset, true)
    requires rest == G.ParseMembers(c, offset + 1, room)
    requires first == G.ParseMember(c, G.Skip(c, offset + 1), room)
    requires first.Some? ==> q == G.Skip(c, first.value.next)
    ensures first.None? ==> whole.None?
    ensures first.Some? ==>
              && ListProgress(c, RBRACE, whole, done + [first.value.value], tail, q, q < |c| && c[q] == COMMA)
              && (q < |c| && c[q] == COMMA ==> tail == G.ParseMembers(c, q + 1, room))
  {
    hide G.ParseMember, G.Skip;
    tail := None;
    if first.Some? && q < |c| && c[q] == COMMA {
      tail := G.ParseMembers(c, q + 1, room);
      PrefixedConsed(done, first.value.value, tail);
    }
  }

  lemma PrefixedConsed<T>(done: seq<T>, v: T, tail: Option<G.Parsed<seq<T>>>)
    ensures Prefixed(done, G.Consed(v, tail)) == Prefixed(done + [v], tail)
  {
    if tail.Some? { assert done + ([v] + tail.value.value) == (done + [v]) + tail.value.value; }
  }

  class Parser {
    const content: bytes
    var offset: nat
    var depth: nat

    ghost predicate Valid()
      reads this
    {
      offset <= |content| && depth <= G.NESTING_LIMIT
    }

    /** What the grammar reads at the offset, with the containers open here counted against the limit. */
    ghost function ValueHere(): Option<G.Parsed<Json>>
      requires Valid()
      reads this
    {
      G.ParseValue(content, offset, G.NESTING_LIMIT - depth)
    }

    ghost function ArrayHere(): Option<G.Parsed<Json>>
      requires Valid() && offset < |content|
      reads this
    {
      G.ParseArray(content, offset, G.NESTING_LIMIT - depth)
    }

    ghost function ObjectHere(): Option<G.Parsed<Json>>
      requires Valid() && offset < |content|
      reads this
    {
      G.ParseObject(content, offset, G.NESTING_LIMIT - depth)
    }

    ghost function MemberHere(): Option<G.Parsed<Member>>
      requires Valid()
      reads this
    {
      G.ParseMember(content, offset, G.NESTING_LIMIT - depth)
    }

    ghost function ElementsHere(): Option<G.Parsed<seq<Json>>>
      requires Valid()
      reads this
    {
      G.ParseElements(content, offset, G.NESTING_LIMIT - depth)
    }

    ghost function MembersHere(): Option<G.Parsed<seq<Member>>>
      requires Valid()
      reads this
    {
      G.ParseMembers(content, offset, G.NESTING_LIMIT - depth)
    }

    /** The value behind the byte at the offset. */
    ghost function NextValue(): Option<G.Parsed<Json>>
      requires Valid() && offset < |content|
      reads this
    {
      G.ParseValue(content, G.Skip(content, offset + 1), G.NESTING_LIMIT - depth)
    }

    ghost function NextMember(): Option<G.Parsed<Member>>
      requires Valid() && offset < |content|
      reads this
    {
      G.ParseMember(content, G.Skip(content, offset + 1), G.NESTING_LIMIT - depth)
    }

    constructor (content: bytes)
      ensures Valid() && this.content == content && offset == 0 && depth == 0
    {
      this.content := content;
      offset, depth := 0, 0;
    }

    method SkipWhitespace()
      requires Valid()
      modifies this`offset
      ensures Valid() && offset == G.Skip(content, old(offset))
    {
      if offset >= |content| {
        return;
      }
      while offset < |content| && content[offset] <= 32
        invariant old(offset) <= offset <= |content|
        invariant G.Visible(content, offset) == G.Visible(content, old(offset))
      {
        offset := offset + 1;
      }
      if offset == |content| {
        offset := offset - 1;
      }
    }

    /** A byte-order mark is skipped if there is more than one byte behind it. */
    method SkipBom()
      requires offset == 0
      modifies this`offset
      ensures Valid() <== old(Valid())
      ensures offset == G.BomLength(content)
    {
      if 4 < |content| && TextAt(content, 0, G.BOM) {
        offset := 3;
      }
    }

    /** First pass: the closing quote and the number of escapes before it. */
    method MeasureString() returns (end: nat, escapes: nat)
      requires offset < |content|
      ensures end >= |content| ==> G.ClosingQuote(content, offset + 1).None?
      ensures end < |content| ==> offset < end && G.ClosingQuote(content, offset + 1) == Some(end)
      ensures end < |content| ==> Boundary(content, offset + 1, end) && escapes == Escapes(content, offset + 1, end)
    {
      end, escapes := offset + 1, 0;
      while end < |content| && content[end] != QUOTE
        invariant offset < end
        invariant G.ClosingQuote(content, offset + 1) == G.ClosingQuote(content, end)
        invariant end <= |content| ==>
                    Boundary(content, offset + 1, end) && escapes == Escapes(content, offset + 1, end)
        decreases |content| - end
      {
        BoundaryStep(content, offset + 1, end);
        if content[end] == BACKSLASH {
          if end + 1 >= |content| {
            return |content|, escapes;
          }
          escapes := escapes + 1;
          end := end + 1;
        }
        end := end + 1;
      }
    }

    /** The escape sequence at `i`, written at `output[w..]`. */
    method CopyEscape(i: nat, end: nat, output: array<byte>, w: nat) returns (ok: bool, i': nat, w': nat)
      requires offset < i < end < |content| && content[end] == QUOTE && content[i] == BACKSLASH
      requires Boundary(content, offset + 1, end)
      requires w <= Room(content, offset + 1, i)
      requires Room(content, offset + 1, end) < output.Length
      modifies output
      ensures !ok ==> G.Unescape(content, i, end).None?
      ensures ok ==> i < i' <= end + 1 && w <= w' <= output.Length && output[..w] == old(output[..w])
      ensures ok ==> w' <= Room(content, offset + 1, if i' <= end then i' else end) <= Room(content, offset + 1, end)
      ensures ok ==> G.Unescape(content, i, end) == G.Prepend(output[w..w'], G.Unescape(content, i', end))
    {
      hide Room, Boundary, Utf.LiteralAt, Utf.Encode;
      RoomMonotone(content, offset + 1, i, end);
      if content[i + 1] == Utf.LETTER_U {
        if Utf.LiteralAt(content, i, end).Some? { LiteralFits(content, offset + 1, i, end); }
        var consumed, n := Utf.Utf16LiteralToUtf8(content, i, end, output, w);
        ok, i', w' := consumed != 0, i + consumed, n;
      } else {
        EscapeFits(content, offset + 1, i, end);
        var b := G.ReadEscape(content[i + 1]);
        if b.None? {
          return false, i, w;
        }
        output[w] := b.value;
        assert output[w..w + 1] == [b.value];
        ok, i', w' := true, i + 2, w + 1;
      }
    }

    /** Second pass: the unescaped body goes to an output sized by the first pass; `w` bytes are written. */
    method UnescapeBody(end: nat, output: array<byte>) returns (ok: bool, w: nat)
      requires offset < end < |content| && content[end] == QUOTE
      requires Boundary(content, offset + 1, end)
      requires output.Length == end - offset - Escapes(content, offset + 1, end) + 1
      modifies output
      ensures ok <==> G.Unescape(content, offset + 1, end).Some?
      ensures ok ==> w + 1 < output.Length && output[..w] == G.Unescape(content, offset + 1, end).value
    {
      hide Boundary, Utf.LiteralAt, Utf.Encode;
      ghost var start := offset + 1;
      var i := offset + 1;
      w := 0;
      RoomMonotone(content, start, start, end);
      G.PrependTwice([], [], G.Unescape(content, i, end));
      assert output[..w] == [];
      while i < end
        invariant start <= i <= end + 1
        invariant w <= Room(content, start, if i <= end then i else end) <= Room(content, start, end)
        invariant G.Unescape(content, start, end) == G.Prepend(output[..w], G.Unescape(content, i, end))
        decreases end + 1 - i
      {
        ghost var written := output[..w];
        if content[i] != BACKSLASH {
          RoomNext(content, start, i);
          RoomMonotone(content, start, i + 1, end);
          G.PrependTwice(written, [content[i]], G.Unescape(content, i + 1, end));
          output[w] := content[i];
          assert output[..w + 1] == written + [content[i]];
          i, w := i + 1, w + 1;
        } else {
          var good, i', w' := CopyEscape(i, end, output, w);
          if !good {
            return false, w;
          }
          G.PrependTwice(written, output[w..w'], G.Unescape(content, i', end));
          assert output[..w'] == written + output[w..w'];
          i, w := i', w';
        }
      }
      assert output[..w] + [] == output[..w];
      return true, w;
    }

    /** Reads a string literal in two passes; the value is the C string of what was written. */
    method ParseString() returns (r: Option<bytes>)
      requires Valid() && offset < |content|
      modifies this`offset
      ensures Valid()
      ensures r.Some? <==> G.ParseString(content, old(offset)).Some?
      ensures r.Some? ==> G.ParseString(content, old(offset)) == Some(G.Parsed(r.value, offset))
    {
      if content[offset] != QUOTE {
        return None;
      }
      var end, escapes := MeasureString();
      if end >= |content| {
        return None;
      }
      RoomMonotone(content, offset + 1, offset + 1, end);
      var output := new byte[end - offset - escapes + 1];
      var ok, w := UnescapeBody(end, output);
      if !ok {
        return None;
      }
      output[w] := NUL;
      r := Some(CString(output[..w]));
      offset := end + 1;
    }

    /** How many bytes are copied to the number buffer for strtod. */
    method NumberLength() returns (i: nat)
      requires Valid()
      ensures i == G.NumberRun(content, offset, 0)
    {
      i := 0;
      while i < G.NUMBER_LIMIT && offset + i < |content| && G.IsNumberByte(content[offset + i])
        invariant i <= G.NUMBER_LIMIT && offset + i <= |content|
        invariant G.NumberRun(content, offset, i) == G.NumberRun(content, offset, 0)
      {
        i := i + 1;
      }
    }

    method ParseNumber() returns (r: Option<Json>)
      requires Valid()
      modifies this`offset
      ensures Valid()
      ensures r.Some? <==> G.ParseNumber(content, old(offset)).Some?
      ensures r.Some? ==> G.ParseNumber(content, old(offset)) == Some(G.Parsed(r.value, offset))
    {
      hide G.ParseNumber, G.NumberRun, G.StrtodEnd, G.NumberOf;
      var n := NumberLength();
      var end := G.StrtodEnd(content, offset, offset + n);
      var v := if end == offset then Null else G.NumberOf(content[offset..end]);
      G.ParseNumberIs(content, offset, n, end, v);
      if end == offset {
        return None;
      }
      r := Some(v);
      offset := end;
    }

    /** Dispatch on the text at the offset; `depth` counts the containers open here. */
    method ParseValue() returns (r: Option<Json>)
      requires Valid()
      modifies this
      ensures Valid()
      ensures r.Some? <==> old(ValueHere()).Some?
      ensures r.Some? ==> old(ValueHere()) == Some(G.Parsed(r.value, offset)) && depth == old(depth)
      decreases |content| - offset, 1
    {
      hide G.ParseString, G.ParseNumber, G.ParseArray, G.ParseObject;
      if TextAt(content, offset, NULL_TEXT) {
        offset := offset + 4;
        return Some(Null);
      }
      if TextAt(content, offset, FALSE_TEXT) {
        offset := offset + 5;
        return Some(False);
      }
      if TextAt(content, offset, TRUE_TEXT) {
        offset := offset + 4;
        return Some(True);
      }
      if offset < |content| && content[offset] == QUOTE {
        var s := ParseString();
        if s.Some? {
          r := Some(String(s.value));
        } else {
          r := None;
        }
        return;
      }
      if offset < |content| && (content[offset] == MINUS || IsDigit(content[offset])) {
        r := ParseNumber();
        return;
      }
      if offset < |content| && content[offset] == LBRACKET {
        r := ParseArray();
        return;
      }
      if offset < |content| && content[offset] == LBRACE {
        r := ParseObject();
        return;
      }
      return None;
    }

    /** One turn of the loop over values: past the byte at the offset, one value, whitespace around it. */
    method NextElement() returns (r: Option<Json>)
      requires Valid() && offset < |content|
      modifies this
      ensures Valid()
      ensures var first := old(NextValue());
              && (r.Some? <==> first.Some?)
              && (r.Some? ==> r.value == first.value.value && offset == G.Skip(content, first.value.next))
      ensures r.Some? ==> depth == old(depth) && old(offset) < offset
      decreases |content| - offset - 1, 2
    {
      hide G.ParseValue;
      offset := offset + 1;
      SkipWhitespace();
      r := ParseValue();
      if r.Some? {
        SkipWhitespace();
      }
    }

    /** One turn of the loop over values: `done` grows by one, and a comma asks for `more`. */
    method ElementTurn(
        done: seq<Json>, ghost room: nat, ghost whole: Option<G.Parsed<seq<Json>>>,
        ghost rest: Option<G.Parsed<seq<Json>>>)
      returns (r: Option<seq<Json>>, more: bool, ghost tail: Option<G.Parsed<seq<Json>>>)
      requires Valid() && ListProgress(content, RBRACKET, whole, done, rest, offset, true)
      requires room == G.NESTING_LIMIT - depth && rest == G.ParseElements(content, offset + 1, room)
      modifies this
      ensures Valid()
      ensures r.None? ==> whole.None?
      ensures r.Some? ==> ListProgress(content, RBRACKET, whole, r.value, tail, offset, more)
      ensures r.Some? ==> old(offset) < offset && depth == old(depth)
      ensures r.Some? && more ==> tail == G.ParseElements(content, offset + 1, room)
      decreases |content| - offset - 1, 3
    {
      hide G.ParseValue, G.ParseElements, G.ParseList, G.Skip, Prefixed;
      ghost var first := G.ParseValue(content, G.Skip(content, offset + 1), room);
      ghost var q := if first.Some? then G.Skip(content, first.value.next) else offset;
      tail := ParseElementsStep(content, offset, room, whole, done, rest, first, q);
      var v := NextElement();
      if v.None? {
        return None, false, tail;
      }
      more := offset < |content| && content[offset] == COMMA;
      r := Some(done + [v.value]);
    }

    /** The comma-separated values from the offset on, up to the closing byte, which is left to the caller. */
    method ParseElements() returns (r: Option<seq<Json>>)
      requires Valid() && 0 < offset < |content|
      modifies this
      ensures Valid()
      ensures r.Some? <==> old(ElementsHere()).Some?
      ensures r.Some? ==> old(ElementsHere()) == Some(G.Parsed(r.value, offset + 1)) && depth == old(depth)
      decreases |content| - offset, 4
    {
      hide G.ParseElements, Prefixed;
      ghost var start, room, p := offset, G.NESTING_LIMIT - depth, ElementsHere();
      ghost var rest := p;
      ListStart(content, offset, RBRACKET, p);
      offset := offset - 1;
      r := Some([]);
      var more := true;
      while more
        invariant Valid() && depth == old(depth) && room == G.NESTING_LIMIT - depth && start - 1 <= offset
        invariant r.Some? && ListProgress(content, RBRACKET, p, r.value, rest, offset, more)
        invariant more ==> rest == G.ParseElements(content, offset + 1, room)
        decreases more, |content| - offset
      {
        r, more, rest := ElementTurn(r.value, room, p, rest);
        if r.None? {
          return;
        }
      }
      if offset >= |content| || content[offset] != RBRACKET {
        r := None;
      }
    }

    method ParseArray() returns (r: Option<Json>)
      requires Valid() && offset < |content| && content[offset] == LBRACKET
      modifies this
      ensures Valid()
      ensures r.Some? <==> old(ArrayHere()).Some?
      ensures r.Some? ==> old(ArrayHere()) == Some(G.Parsed(r.value, offset)) && depth == old(depth)
      decreases |content| - offset, 0
    {
      hide G.ParseValue, G.Skip, G.ParseList;
      if depth >= G.NESTING_LIMIT {
        return None;
      }
      depth := depth + 1;
      offset := offset + 1;
      SkipWhitespace();
      var items: seq<Json> := [];
      if !(offset < |content| && content[offset] == RBRACKET) {
        if offset >= |content| {
          offset := offset - 1;
          return None;
        }
        var list := ParseElements();
        if list.None? {
          return None;
        }
        items := list.value;
      }
      depth := depth - 1;
      offset := offset + 1;
      return Some(Array(items));
    }

    /** One `key : value` pair, with the offset at the key. */
    method ParseMember() returns (r: Option<Member>)
      requires Valid() && offset < |content|
      modifies this
      ensures Valid()
      ensures r.Some? <==> old(MemberHere()).Some?
      ensures r.Some? ==> old(MemberHere()) == Some(G.Parsed(r.value, offset)) && depth == old(depth)
      decreases |content| - offset, 2
    {
      hide G.ParseValue, G.ParseString, G.Skip;
      var key := ParseString();
      if key.None? {
        return None;
      }
      SkipWhitespace();
      if offset >= |content| || content[offset] != COLON {
        return None;
      }
      offset := offset + 1;
      SkipWhitespace();
      var v := ParseValue();
      if v.None? {
        return None;
      }
      return Some(Member(key.value, v.value));
    }

    /** One turn of the loop over members: past the byte at the offset, one member, whitespace around it. */
    method NextEntry() returns (r: Option<Member>)
      requires Valid() && offset < |content|
      modifies this
      ensures Valid()
      ensures var first := old(NextMember());
              && (r.Some? <==> first.Some?)
              && (r.Some? ==> r.value == first.value.value && offset == G.Skip(content, first.value.next))
      ensures r.Some? ==> depth == old(depth) && old(offset) < offset
      decreases |content| - offset - 1, 3
    {
      hide G.ParseString, G.ParseValue;
      if offset + 1 >= |content| {
        return None;
      }
      hide G.ParseMember;
      offset := offset + 1;
      SkipWhitespace();
      r := ParseMember();
      if r.Some? {
        SkipWhitespace();
      }
    }

    /** One turn of the loop over members: `done` grows by one, and a comma asks for `more`. */
    method EntryTurn(
        done: seq<Member>, ghost room: nat, ghost whole: Option<G.Parsed<seq<Member>>>,
        ghost rest: Option<G.Parsed<seq<Member>>>)
      returns (r: Option<seq<Member>>, more: bool, ghost tail: Option<G.Parsed<seq<Member>>>)
      requires Valid() && ListProgress(content, RBRACE, whole, done, rest, offset, true)
      requires room == G.NESTING_LIMIT - depth && rest == G.ParseMembers(content, offset + 1, room)
      modifies this
      ensures Valid()
      ensures r.None? ==> whole.None?
      ensures r.Some? ==> ListProgress(content, RBRACE, whole, r.value, tail, offset, more)
      ensures r.Some? ==> old(offset) < offset && depth == old(depth)
      ensures r.Some? && more ==> tail == G.ParseMembers(content, offset + 1, room)
      decreases |content| - offset - 1, 4
    {
      hide G.ParseMember, G.ParseMembers, G.ParseList, G.Skip, Prefixed;
      ghost var first := G.ParseMember(content, G.Skip(content, offset + 1), room);
      ghost var q := if first.Some? then G.Skip(content, first.value.next) else offset;
      tail := ParseMembersStep(content, offset, room, whole, done, rest, first, q);
      var v := NextEntry();
      if v.None? {
        return None, false, tail;
      }
      more := offset < |content| && content[offset] == COMMA;
      r := Some(done + [v.value]);
    }

    /** The comma-separated members from the offset on, up to the closing byte, which is left to the caller. */
    method ParseMembers() returns (r: Option<seq<Member>>)
      requires Valid() && 0 < offset < |content|
      modifies this
      ensures Valid()
      ensures r.Some? <==> old(MembersHere()).Some?
      ensures r.Some? ==> old(MembersHere()) == Some(G.Parsed(r.value, offset + 1)) && depth == old(depth)
      decreases |content| - offset, 5
    {
      hide G.ParseMembers, Prefixed;
      ghost var start, room, p := offset, G.NESTING_LIMIT - depth, MembersHere();
      ghost var rest := p;
      ListStart(content, offset, RBRACE, p);
      offset := offset - 1;
      r := Some([]);
      var more := true;
      while more
        invariant Valid() && depth == old(depth) && room == G.NESTING_LIMIT - depth && start - 1 <= offset
        invariant r.Some? && ListProgress(content, RBRACE, p, r.value, rest, offset, more)
        invariant more ==> rest == G.ParseMembers(content, offset + 1, room)
        decreases more, |content| - offset
      {
        r, more, rest := EntryTurn(r.value, room, p, rest);
        if r.None? {
          return;
        }
      }
      if offset >= |content| || content[offset] != RBRACE {
        r := None;
      }
    }

    method ParseObject() returns (r: Option<Json>)
      requires Valid() && offset < |content| && content[offset] == LBRACE
      modifies this
      ensures Valid()
      ensures r.Some? <==> old(ObjectHere()).Some?
      ensures r.Some? ==> old(ObjectHere()) == Some(G.Parsed(r.value, offset)) && depth == old(depth)
      decreases |content| - offset, 0
    {
      hide G.ParseMember, G.Skip, G.ParseList;
      if depth >= G.NESTING_LIMIT {
        return None;
      }
      depth := depth + 1;
      offset := offset + 1;
      SkipWhitespace();
      var items: seq<Member> := [];
      if !(offset < |content| && content[offset] == RBRACE) {
        if offset >= |content| {
          offset := offset - 1;
          return None;
        }
        var list := ParseMembers();
        if list.None? {
          return None;
        }
        items := list.value;
      }
      depth := depth - 1;
      offset := offset + 1;
      return Some(Object(items));
    }
  }

  /** `cJSON_ParseWithLength`: byte-order mark, whitespace, one value; the rest is not looked at. */
  method ParseWithLength(content: bytes) returns (r: Option<Json>, end: nat)
    ensures r.Some? <==> G.ParseWithLength(content).Some?
    ensures r.Some? ==> G.ParseWithLength(content) == Some(G.Parsed(r.value, end))
    ensures forall v, e :: A.IsDocument(content, v, e) <==> r == Some(v) && end == e
  {
    forall v, e ensures G.ParseWithLength(content) == Some(G.Parsed(v, e)) <==> A.IsDocument(content, v, e) {
      A.AcceptedIff(content, v, e);
    }
    if |content| == 0 {
      return None, 0;
    }
    hide G.ParseValue, G.Skip, G.BomLength, A.IsDocument;
    var parser := new Parser(content);
    parser.SkipBom();
    parser.SkipWhitespace();
    r := parser.ParseValue();
    end := parser.offset;
  }
}
