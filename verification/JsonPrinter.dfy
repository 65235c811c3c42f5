/** The printer over its growable buffer, against the pure printer. */
module JsonPrinter {
  import opened Bytes
  import Decimal
  import B = JsonBytes
  import opened JsonText

  const FIRST_SIZE: nat := 256

  class PrintBuffer {
    var buffer: array<byte>
    var offset: nat
    var depth: nat
    const format: bool

    ghost predicate Valid()
      reads this
    {
      offset < buffer.Length
    }

    /** A fresh buffer, as `print` starts with. */
    constructor (format: bool)
      ensures Valid() && fresh(buffer) && offset == 0 && depth == 0 && this.format == format
    {
      buffer := new byte[FIRST_SIZE];
      offset, depth := 0, 0;
      this.format := format;
    }

    /** Can `needed` more bytes and a terminator be had? */
    ghost predicate CanHold(needed: nat)
      reads this
    {
      needed <= INT_MAX && (offset + needed + 1 <= buffer.Length || offset + needed + 1 <= INT_MAX)
    }

    /** Makes room for `needed` more bytes and a terminator; what is in the buffer survives growing. */
    method Ensure(needed: nat) returns (ok: bool)
      requires Valid()
      modifies this`buffer
      ensures Valid() && (buffer == old(buffer) || fresh(buffer))
      ensures ok == old(CanHold(needed))
      ensures ok ==> offset + needed + 1 <= buffer.Length
      ensures old(buffer.Length) <= buffer.Length && buffer[..old(buffer.Length)] == old(buffer[..])
    {
      if offset >= buffer.Length || needed > INT_MAX {
        return false;
      }
      var total := needed + offset + 1;
      if total <= buffer.Length {
        return true;
      }
      var size: nat;
      if total > INT_MAX / 2 {
        if total > INT_MAX {
          return false;
        }
        size := INT_MAX;
      } else {
        size := total * 2;
      }
      var bigger := new byte[size];
      forall k | 0 <= k < buffer.Length {
        bigger[k] := buffer[k];
      }
      assert bigger[..buffer.Length] == buffer[..];
      buffer := bigger;
      return true;
    }

    /** Reserves `needed` bytes and writes `text`, and a NUL if asked for, inside them. */
    method Put(text: bytes, needed: nat, terminated: bool) returns (ok: bool)
      requires Valid() && |text| + (if terminated then 1 else 0) <= needed
      modifies this`buffer, buffer
      ensures Valid() && (buffer == old(buffer) || fresh(buffer))
      ensures ok == old(CanHold(needed))
      ensures buffer[..offset] == old(buffer[..offset])
      ensures ok ==> offset + |text| + 1 <= buffer.Length && buffer[offset..offset + |text|] == text
      ensures ok && terminated ==> buffer[offset + |text|] == NUL
    {
      ghost var before := buffer[..offset];
      ok := Ensure(needed);
      assert buffer[..offset] == before;
      if !ok {
        return;
      }
      CopyIn(text, offset);
      if terminated {
        before := buffer[..offset + |text|];
        buffer[offset + |text|] := NUL;
        assert buffer[..offset + |text|] == before;
        assert buffer[offset..offset + |text|] == buffer[..offset + |text|][offset..];
        assert buffer[..offset] == buffer[..offset + |text|][..offset];
      }
    }

    /** memcpy of `text` to position `at`. */
    method CopyIn(text: bytes, at: nat)
      requires at + |text| < buffer.Length
      modifies buffer
      ensures buffer[..at] == old(buffer[..at]) && buffer[at..at + |text|] == text
      ensures buffer[..at + |text|] == old(buffer[..at]) + text
    {
      ghost var before := buffer[..at];
      forall k | 0 <= k < |text| {
        buffer[at + k] := text[k];
      }
      forall k | 0 <= k < at ensures buffer[k] == before[k] {}
      forall k | at <= k < at + |text| ensures buffer[k] == text[k - at] {}
      assert buffer[..at + |text|] == before + text;
    }

    /** Writes `text` as `Put` does and moves on behind it. */
    method Append(text: bytes, needed: nat, terminated: bool) returns (ok: bool)
      requires Valid() && |text| + (if terminated then 1 else 0) <= needed
      modifies this`buffer, this`offset, buffer
      ensures Valid() && (buffer == old(buffer) || fresh(buffer))
      ensures ok == old(CanHold(needed))
      ensures ok ==> offset == old(offset) + |text| && buffer[..offset] == old(buffer[..offset]) + text
      ensures ok && terminated ==> buffer[offset] == NUL
    {
      ok := Put(text, needed, terminated);
      if ok {
        assert buffer[..offset + |text|] == buffer[..offset] + buffer[offset..offset + |text|];
        offset := offset + |text|;
      }
    }

    /** The text printed from `start` on is `text`, and a NUL ends it; the offset may lag behind. */
    ghost predicate Printed(before: bytes, text: bytes)
      reads this, buffer
    {
      && |before| <= offset <= |before| + |text| < buffer.Length
      && buffer[..|before| + |text|] == before + text && buffer[|before| + |text|] == NUL
    }

    /** `update_offset`: moves on to the NUL that ends the printed text. */
    method UpdateOffset(ghost before: bytes, ghost text: bytes)
      requires Printed(before, text) && NUL !in text
      modifies this`offset
      ensures Valid() && buffer[..offset] == before + text
    {
      ghost var end := |before| + |text|;
      forall k | |before| <= k < end ensures buffer[k] != NUL {
        assert buffer[..end][k] == text[k - |before|];
      }
      while buffer[offset] != NUL
        invariant |before| <= offset <= end < buffer.Length
        decreases end - offset
      {
        offset := offset + 1;
      }
    }

    // -------------------------------------------------------------- strings

    /** How many bytes escaping adds to `s`. */
    method CountEscapes(s: bytes) returns (extra: nat)
      ensures |s| + extra == |Escape(s)|
    {
      extra := 0;
      var i := 0;
      assert s[0..] == s;
      while i < |s|
        invariant i <= |s| && i + extra + |Escape(s[i..])| == |Escape(s)|
      {
        EscapeFront(s, i);
        if s[i] == QUOTE || s[i] == BACKSLASH || s[i] == 8 || s[i] == 12 || s[i] == LF || s[i] == CR || s[i] == TAB {
          extra := extra + 1;
        } else if s[i] < 32 {
          extra := extra + 5;
        }
        i := i + 1;
      }
    }

    /** The six bytes of a `\u00XY` escape, and the NUL sprintf puts behind them. */
    method PutUnicode(b: byte, at: nat)
      requires b < 32 && ShortEscape(b).None? && at + 6 < buffer.Length
      modifies buffer
      ensures buffer[..at] == old(buffer[..at]) && buffer[at..at + 6] == EscapeByte(b)
    {
      buffer[at], buffer[at + 1], buffer[at + 2], buffer[at + 3] := BACKSLASH, 0x75, 0x30, 0x30;
      buffer[at + 4], buffer[at + 5], buffer[at + 6] := LowerHex(b / 16), LowerHex(b % 16), NUL;
    }

    /** One input byte, escaped if need be, goes to position `at`. */
    method PutEscaped(b: byte, at: nat) returns (at': nat)
      requires at + |EscapeByte(b)| < buffer.Length
      modifies buffer
      ensures at' == at + |EscapeByte(b)|
      ensures buffer[..at'] == old(buffer[..at]) + EscapeByte(b)
    {
      if b > 31 && b != QUOTE && b != BACKSLASH {
        buffer[at] := b;
        at' := at + 1;
      } else {
        var short := ShortEscape(b);
        if short.Some? {
          buffer[at], buffer[at + 1] := BACKSLASH, short.value;
          at' := at + 2;
        } else {
          PutUnicode(b, at);
          at' := at + 6;
        }
      }
      assert buffer[at..at'] == EscapeByte(b);
      assert buffer[..at'] == buffer[..at] + buffer[at..at'];
    }

    /** The escaped text of `s` goes to the positions from `at` on. */
    method PutEscapes(s: bytes, at: nat)
      requires at + |Escape(s)| < buffer.Length
      modifies buffer
      ensures buffer[..at + |Escape(s)|] == old(buffer[..at]) + Escape(s)
    {
      ghost var before := buffer[..at];
      var i, to := 0, at;
      assert s[0..] == s && buffer[..to] + Escape(s) == before + Escape(s);
      while i < |s|
        invariant i <= |s| && at <= to && to + |Escape(s[i..])| == at + |Escape(s)|
        invariant buffer[..to] + Escape(s[i..]) == before + Escape(s)
      {
        EscapeFront(s, i);
        ghost var front := buffer[..to];
        to := PutEscaped(s[i], to);
        AppendAssociates(front, EscapeByte(s[i]), Escape(s[i + 1..]));
        i := i + 1;
      }
      assert s[i..] == [] && buffer[..to] + [] == buffer[..to];
    }

    /** The body of a string literal: copied as it is if nothing is to be escaped. */
    method PutBody(s: bytes, extra: nat, at: nat)
      requires |s| + extra == |Escape(s)| && at + |Escape(s)| < buffer.Length
      modifies buffer
      ensures buffer[..at + |Escape(s)|] == old(buffer[..at]) + Escape(s)
    {
      if extra == 0 {
        NothingToEscape(s);
        CopyIn(s, at);
      } else {
        PutEscapes(s, at);
      }
    }

    /** `print_string_ptr`: room for the whole literal is reserved before any of it is written. */
    method PrintString(s: bytes) returns (ok: bool)
      requires Valid()
      modifies this`buffer, buffer
      ensures Valid() && (buffer == old(buffer) || fresh(buffer))
      ensures ok == old(CanHold(|Quoted(s)| + 1))
      ensures ok ==> Printed(old(buffer[..offset]), Quoted(s))
    {
      hide Escape, EscapeByte;
      ghost var before := buffer[..offset];
      var extra := CountEscapes(s);
      var length := |s| + extra;
      ok := Ensure(length + 3);
      assert buffer[..offset] == before;
      if !ok {
        return;
      }
      buffer[offset] := QUOTE;
      assert buffer[..offset + 1] == before + [QUOTE];
      PutBody(s, extra, offset + 1);
      buffer[offset + length + 1], buffer[offset + length + 2] := QUOTE, NUL;
      assert buffer[..offset + length + 2] == buffer[..offset + 1 + length] + [QUOTE];
      QuotedParts(before, s);
    }

    // -------------------------------------------------------------- values

    /** `print_number` of a 32-bit integer: the digits, a NUL, and the offset already behind them. */
    method PrintNumber(n: int) returns (ok: bool)
      requires Valid()
      modifies this`buffer, this`offset, buffer
      ensures Valid() && (buffer == old(buffer) || fresh(buffer))
      ensures ok == old(CanHold(|Decimal.Signed(n)| + 1))
      ensures ok ==> Printed(old(buffer[..offset]), Decimal.Signed(n))
    {
      ok := Append(Decimal.Signed(n), |Decimal.Signed(n)| + 1, true);
    }

    /** A constant name, with its NUL. */
    method PrintWord(word: bytes) returns (ok: bool)
      requires Valid()
      modifies this`buffer, buffer
      ensures Valid() && (buffer == old(buffer) || fresh(buffer))
      ensures ok == old(CanHold(|word| + 1))
      ensures ok ==> Printed(old(buffer[..offset]), word)
    {
      ghost var before := buffer[..offset];
      ok := Put(word, |word| + 1, true);
      if ok { assert buffer[..offset + |word|] == before + word; }
    }

    /** Does the whole text from here on, with two bytes to spare, stay within the largest size? */
    ghost predicate Fits(text: bytes)
      reads this`offset
    {
      offset + |text| + 2 <= INT_MAX
    }

    method PrintValue(v: Json) returns (ok: bool)
      requires Valid() && Printable(v)
      modifies this, buffer
      ensures Valid() && (buffer == old(buffer) || fresh(buffer))
      ensures ok ==> Printed(old(buffer[..offset]), Print(v, format, old(depth))) && depth == old(depth)
      ensures old(Fits(Print(v, format, depth))) ==> ok
      decreases v, 1
    {
      match v
      case Null => ok := PrintWord(NULL_TEXT);
      case False => ok := PrintWord(FALSE_TEXT);
      case True => ok := PrintWord(TRUE_TEXT);
      case Number(n) => ok := PrintNumber(n);
      case String(s) => ok := PrintString(s);
      case Array(_) => ok := PrintContainer(v);
      case Object(_) => ok := PrintContainer(v);
    }

    method PrintContainer(v: Json) returns (ok: bool)
      requires Valid() && Printable(v) && (v.Array? || v.Object?)
      modifies this, buffer
      ensures Valid() && (buffer == old(buffer) || fresh(buffer))
      ensures ok ==> Printed(old(buffer[..offset]), Print(v, format, old(depth))) && depth == old(depth)
      ensures old(Fits(Print(v, format, depth))) ==> ok
      decreases v, 0
    {
      if v.Array? {
        ghost var front := ArrayFront(v.items, format, depth);
        ok := PrintArray(v.items, front);
      } else {
        ghost var body := ObjectBody(v.members, format, depth);
        ok := PrintObject(v.members, body);
      }
    }

    /** A value, and the offset moved on behind it. */
    method PrintItem(v: Json) returns (ok: bool)
      requires Valid() && Printable(v)
      modifies this, buffer
      ensures Valid() && (buffer == old(buffer) || fresh(buffer))
      ensures ok ==> buffer[..offset] == old(buffer[..offset]) + Print(v, format, depth) && depth == old(depth)
      ensures old(Fits(Print(v, format, depth))) ==> ok
      decreases v, 2
    {
      ghost var before, text := buffer[..offset], Print(v, format, depth);
      ok := PrintValue(v);
      if ok {
        B.PrintIsPlain(v, format, depth);
        UpdateOffset(before, text);
      }
    }

    /** One element of an array, with the separator behind it unless it is the last. */
    method PrintElement(v: Json, last: bool) returns (ok: bool)
      requires Valid() && Printable(v)
      modifies this, buffer
      ensures Valid() && (buffer == old(buffer) || fresh(buffer))
      ensures var piece := Print(v, format, old(depth)) + if last then [] else ItemSeparator(format);
              && (ok ==> buffer[..offset] == old(buffer[..offset]) + piece && depth == old(depth))
              && (old(Fits(piece)) ==> ok)
      decreases v, 3
    {
      ghost var before, text := buffer[..offset], Print(v, format, depth);
      ok := PrintItem(v);
      if ok && !last {
        var separator := ItemSeparator(format);
        ok := Append(separator, |separator| + 1, true);
        AppendAssociates(before, text, separator);
      }
      assert text + [] == text;
    }

    /** The elements of an array, separated. */
    method PrintElements(items: seq<Json>) returns (ok: bool)
      requires Valid() && forall k :: 0 <= k < |items| ==> Printable(items[k])
      modifies this, buffer
      ensures Valid() && (buffer == old(buffer) || fresh(buffer))
      ensures var body := Joined(ItemTexts(items, format, old(depth)), 0, ItemSeparator(format), []);
              && (ok ==> buffer[..offset] == old(buffer[..offset]) + body && depth == old(depth))
              && (old(Fits(body)) ==> ok)
      decreases items, 0
    {
      hide Print, Printable;
      ghost var before, texts := buffer[..offset], ItemTexts(items, format, depth);
      ghost var body := Joined(texts, 0, ItemSeparator(format), []);
      ghost var done: bytes := [];
      var i := 0;
      assert before + done == before && done + body == body;
      ok := true;
      while i < |items|
        invariant i <= |items| && Valid() && depth == old(depth) && (buffer == old(buffer) || fresh(buffer)) && ok
        invariant buffer[..offset] == before + done && body == done + Joined(texts, i, ItemSeparator(format), [])
      {
        ghost var piece := texts[i] + if i + 1 < |items| then ItemSeparator(format) else [];
        JoinedStep(done, texts, i, ItemSeparator(format), []);
        ok := PrintElement(items[i], i + 1 == |items|);
        if !ok {
          return;
        }
        AppendAssociates(before, done, piece);
        done := done + piece;
        i := i + 1;
      }
      assert body == done;
    }

    /** The opening bracket and the elements; the depth stays one up. */
    method OpenArray(items: seq<Json>) returns (ok: bool)
      requires Valid() && forall k :: 0 <= k < |items| ==> Printable(items[k])
      modifies this, buffer
      ensures Valid() && (buffer == old(buffer) || fresh(buffer))
      ensures var front := [LBRACKET] + Joined(ItemTexts(items, format, old(depth) + 1), 0, ItemSeparator(format), []);
              && (ok ==> buffer[..offset] == old(buffer[..offset]) + front && depth == old(depth) + 1)
              && (old(Fits(front)) ==> ok)
      decreases items, 1
    {
      ghost var before := buffer[..offset];
      ok := Append([LBRACKET], 1, false);
      if !ok {
        return;
      }
      depth := depth + 1;
      ok := PrintElements(items);
      AppendAssociates(before, [LBRACKET],
        Joined(ItemTexts(items, format, old(depth) + 1), 0, ItemSeparator(format), []));
    }

    method PrintArray(items: seq<Json>, ghost front: bytes) returns (ok: bool)
      requires Valid() && (forall k :: 0 <= k < |items| ==> Printable(items[k]))
      requires front == [LBRACKET] + Joined(ItemTexts(items, format, depth + 1), 0, ItemSeparator(format), [])
      modifies this, buffer
      ensures Valid() && (buffer == old(buffer) || fresh(buffer))
      ensures ok ==> Printed(old(buffer[..offset]), front + [RBRACKET]) && depth == old(depth)
      ensures old(Fits(front + [RBRACKET])) ==> ok
      decreases items, 2
    {
      ghost var before := buffer[..offset];
      ok := OpenArray(items);
      if ok {
        ok := Close([RBRACKET], 2, before, front);
        depth := depth - 1;
      }
    }

    /** The last bytes of a container, left for the caller to move past. */
    method Close(text: bytes, needed: nat, ghost before: bytes, ghost done: bytes) returns (ok: bool)
      requires Valid() && |text| + 1 <= needed && buffer[..offset] == before + done
      modifies this`buffer, buffer
      ensures Valid() && (buffer == old(buffer) || fresh(buffer))
      ensures ok == old(CanHold(needed))
      ensures ok ==> Printed(before, done + text)
    {
      ok := Put(text, needed, true);
      if ok {
        assert buffer[..offset + |text|] == buffer[..offset] + text;
        AppendAssociates(before, done, text);
      }
    }

    // -------------------------------------------------------------- objects

    /** Indentation, key and colon of a member. */
    method PrintKey(key: bytes) returns (ok: bool)
      requires Valid() && NUL !in key
      modifies this`buffer, this`offset, buffer
      ensures Valid() && (buffer == old(buffer) || fresh(buffer))
      ensures ok ==> buffer[..offset] == old(buffer[..offset]) + KeyText(key, format, depth)
      ensures old(Fits(KeyText(key, format, depth))) ==> ok
    {
      ghost var before := buffer[..offset];
      ghost var indent, quoted, colon := Indent(format, depth), Quoted(key), ColonText(format);
      if format {
        ok := Append(Tabs(depth), depth, false);
        if !ok {
          return;
        }
      }
      assert before + [] == before;
      ok := PrintString(key);
      if !ok {
        return;
      }
      B.EscapeIsPlain(key);
      UpdateOffset(before + indent, quoted);
      ok := Append(ColonText(format), |ColonText(format)|, false);
      AppendAssociates(before, indent, quoted);
      AppendAssociates(before, indent + quoted, colon);
    }

    /** One member of an object, with what goes between members behind it, or what goes after the last. */
    method PrintMember(m: Member, last: bool) returns (ok: bool)
      requires Valid() && NUL !in m.key && Printable(m.value)
      modifies this, buffer
      ensures Valid() && (buffer == old(buffer) || fresh(buffer))
      ensures var piece := MemberText(m, format, old(depth)) + if last then NewLine(format)
              else MemberSeparator(format);
              && (ok ==> buffer[..offset] == old(buffer[..offset]) + piece && depth == old(depth))
              && (old(Fits(piece)) ==> ok)
      decreases m, 3
    {
      hide Print, Printable, KeyText;
      ghost var before, key, text := buffer[..offset], KeyText(m.key, format, depth), Print(m.value, format, depth);
      ok := PrintKey(m.key);
      if !ok {
        return;
      }
      ok := PrintItem(m.value);
      if !ok {
        return;
      }
      var end := if last then NewLine(format) else MemberSeparator(format);
      AppendAssociates(before, key, text);
      AppendAssociates(before, key + text, end);
      ok := Append(end, |end| + 1, true);
    }

    /** The members of an object, separated. */
    method PrintMembers(ms: seq<Member>) returns (ok: bool)
      requires Valid() && forall k :: 0 <= k < |ms| ==> NUL !in ms[k].key && Printable(ms[k].value)
      modifies this, buffer
      ensures Valid() && (buffer == old(buffer) || fresh(buffer))
      ensures var body := Joined(MemberTexts(ms, format, old(depth)), 0, MemberSeparator(format), NewLine(format));
              && (ok ==> buffer[..offset] == old(buffer[..offset]) + body && depth == old(depth))
              && (old(Fits(body)) ==> ok)
      decreases ms, 0
    {
      ghost var before, texts := buffer[..offset], MemberTexts(ms, format, depth);
      ghost var body := Joined(texts, 0, MemberSeparator(format), NewLine(format));
      ghost var done: bytes := [];
      var i := 0;
      assert before + done == before && done + body == body;
      ok := true;
      while i < |ms|
        invariant i <= |ms| && Valid() && depth == old(depth) && (buffer == old(buffer) || fresh(buffer)) && ok
        invariant buffer[..offset] == before + done
                  && body == done + Joined(texts, i, MemberSeparator(format), NewLine(format))
      {
        ghost var piece := texts[i] + if i + 1 < |ms| then MemberSeparator(format) else NewLine(format);
        JoinedStep(done, texts, i, MemberSeparator(format), NewLine(format));
        ok := PrintMember(ms[i], i + 1 == |ms|);
        if !ok {
          return;
        }
        AppendAssociates(before, done, piece);
        done := done + piece;
        i := i + 1;
      }
      assert body == done;
    }

    /** The opening text and the members; the depth stays one up. */
    method OpenObject(open: bytes, ms: seq<Member>, ghost body: bytes) returns (ok: bool)
      requires Valid() && forall k :: 0 <= k < |ms| ==> NUL !in ms[k].key && Printable(ms[k].value)
      requires body == Joined(MemberTexts(ms, format, depth + 1), 0, MemberSeparator(format), NewLine(format))
      modifies this, buffer
      ensures Valid() && (buffer == old(buffer) || fresh(buffer))
      ensures ok ==> buffer[..offset] == old(buffer[..offset]) + (open + body) && depth == old(depth) + 1
      ensures old(offset) + |open| + |body| + 3 <= INT_MAX ==> ok
      decreases ms, 1
    {
      ghost var before := buffer[..offset];
      ok := Append(open, |open| + 1, false);
      if !ok {
        return;
      }
      depth := depth + 1;
      ok := PrintMembers(ms);
      AppendAssociates(before, open, body);
    }

    method PrintObject(ms: seq<Member>, ghost body: bytes) returns (ok: bool)
      requires Valid() && (forall k :: 0 <= k < |ms| ==> NUL !in ms[k].key && Printable(ms[k].value))
      requires body == Joined(MemberTexts(ms, format, depth + 1), 0, MemberSeparator(format), NewLine(format))
      modifies this, buffer
      ensures Valid() && (buffer == old(buffer) || fresh(buffer))
      ensures var text := ([LBRACE] + NewLine(format) + body) + (Indent(format, old(depth)) + [RBRACE]);
              && (ok ==> Printed(old(buffer[..offset]), text) && depth == old(depth))
              && (old(Fits(text)) ==> ok)
      decreases ms, 2
    {
      ghost var before := buffer[..offset];
      var open, close := [LBRACE] + NewLine(format), Indent(format, depth) + [RBRACE];
      ok := OpenObject(open, ms, body);
      if ok {
        ok := Close(close, if format then depth + 1 else 2, before, open + body);
        depth := depth - 1;
      }
    }
  }

  /** `cJSON_Print` and `cJSON_PrintUnformatted`: the C string of the whole text. */
  method PrintText(v: Json, format: bool) returns (text: Option<bytes>)
    requires Printable(v)
    ensures text.Some? ==> text.value == Print(v, format, 0)
    ensures |Print(v, format, 0)| + 2 <= INT_MAX ==> text.Some?
  {
    var p := new PrintBuffer(format);
    var ok := p.PrintItem(v);
    if !ok {
      return None;
    }
    text := Some(p.buffer[..p.offset]);
  }

  lemma ArrayFront(items: seq<Json>, format: bool, depth: nat) returns (front: bytes)
    ensures front == [LBRACKET] + Joined(ItemTexts(items, format, depth + 1), 0, ItemSeparator(format), [])
    ensures Print(Array(items), format, depth) == front + [RBRACKET]
  {
    PrintOfArray(items, format, depth);
    front := [LBRACKET] + Joined(ItemTexts(items, format, depth + 1), 0, ItemSeparator(format), []);
  }

  lemma ObjectBody(ms: seq<Member>, format: bool, depth: nat) returns (body: bytes)
    ensures body == Joined(MemberTexts(ms, format, depth + 1), 0, MemberSeparator(format), NewLine(format))
    ensures Print(Object(ms), format, depth) == ([LBRACE] + NewLine(format) + body) + (Indent(format, depth) + [RBRACE])
  {
    PrintOfObject(ms, format, depth);
    body := Joined(MemberTexts(ms, format, depth + 1), 0, MemberSeparator(format), NewLine(format));
    AppendAssociates([LBRACE] + NewLine(format) + body, Indent(format, depth), [RBRACE]);
  }

  lemma EscapeFront(s: bytes, i: nat)
    requires i < |s|
    ensures Escape(s[i..]) == EscapeByte(s[i]) + Escape(s[i + 1..])
  {
    assert s[i..][1..] == s[i + 1..];
  }

  lemma {:induction false} EscapeIsLonger(s: bytes)
    ensures |s| <= |Escape(s)|
  {
    if s != [] { EscapeIsLonger(s[1..]); }
  }

  /** Text that escaping does not lengthen is not changed by it. */
  lemma {:induction false} NothingToEscape(s: bytes)
    requires |Escape(s)| == |s|
    ensures Escape(s) == s
  {
    if s != [] {
      EscapeIsLonger(s[1..]);
      NothingToEscape(s[1..]);
      assert EscapeByte(s[0]) == [s[0]];
      assert [s[0]] + s[1..] == s;
    }
  }

  lemma QuotedParts(before: bytes, s: bytes)
    ensures ((before + [QUOTE]) + Escape(s)) + [QUOTE] == before + Quoted(s)
  {
  }

  /** The texts from index `i` on, split behind the first. */
  lemma JoinedStep(done: bytes, texts: seq<bytes>, i: nat, between: bytes, after: bytes)
    requires i < |texts|
    ensures var piece := texts[i] + if i + 1 < |texts| then between else after;
            done + Joined(texts, i, between, after) == (done + piece) + Joined(texts, i + 1, between, after)
  {
  }
}
