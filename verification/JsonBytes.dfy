/** Which bytes printed text is made of: none below 32, but for the tabs and newlines of formatting. */
module JsonBytes {
  import opened Bytes
  import Decimal
  import opened JsonText

  ghost predicate Plain(text: bytes, format: bool) {
    forall i :: 0 <= i < |text| ==> text[i] >= 32 || (format && (text[i] == TAB || text[i] == LF))
  }

  lemma {:induction false} EscapeIsPlain(s: bytes)
    ensures Plain(Escape(s), false)
  {
    if s != [] { EscapeIsPlain(s[1..]); }
  }

  lemma SignedIsPlain(n: int)
    ensures Plain(Decimal.Signed(n), false)
  {
    var digits := Decimal.Digits(if n < 0 then -n else n);
    assert forall i :: 0 <= i < |digits| ==> IsDigit(digits[i]);
  }

  lemma {:induction false} JoinedIsPlain(texts: seq<bytes>, i: nat, between: bytes, after: bytes, format: bool)
    requires forall k :: 0 <= k < |texts| ==> Plain(texts[k], format)
    requires Plain(between, format) && Plain(after, format)
    ensures Plain(Joined(texts, i, between, after), format)
    decreases |texts| - i
  {
    if i < |texts| { JoinedIsPlain(texts, i + 1, between, after, format); }
  }

  lemma KeyIsPlain(key: bytes, format: bool, depth: nat)
    ensures Plain(KeyText(key, format, depth), format)
  {
    EscapeIsPlain(key);
  }

  lemma BracketsArePlain(texts: seq<bytes>, format: bool)
    requires forall k :: 0 <= k < |texts| ==> Plain(texts[k], format)
    ensures Plain([LBRACKET] + Joined(texts, 0, ItemSeparator(format), []) + [RBRACKET], format)
  {
    JoinedIsPlain(texts, 0, ItemSeparator(format), [], format);
  }

  lemma AppendIsPlain(a: bytes, b: bytes, format: bool)
    requires Plain(a, format) && Plain(b, format)
    ensures Plain(a + b, format)
  {
  }

  lemma BracesArePlain(texts: seq<bytes>, format: bool, depth: nat)
    requires forall k :: 0 <= k < |texts| ==> Plain(texts[k], format)
    ensures Plain([LBRACE] + NewLine(format) + Joined(texts, 0, MemberSeparator(format), NewLine(format))
                  + Indent(format, depth) + [RBRACE], format)
  {
    var front, middle := [LBRACE] + NewLine(format), Joined(texts, 0, MemberSeparator(format), NewLine(format));
    JoinedIsPlain(texts, 0, MemberSeparator(format), NewLine(format), format);
    AppendIsPlain(front, middle, format);
    AppendIsPlain(front + middle, Indent(format, depth), format);
    AppendIsPlain(front + middle + Indent(format, depth), [RBRACE], format);
  }

  lemma MemberIsPlain(key: bytes, text: bytes, format: bool, depth: nat)
    requires Plain(text, format)
    ensures Plain(KeyText(key, format, depth) + text, format)
  {
    KeyIsPlain(key, format, depth);
  }

  lemma {:induction false} ArrayIsPlain(items: seq<Json>, format: bool, depth: nat)
    requires forall k :: 0 <= k < |items| ==> Printable(items[k])
    ensures Plain(Print(Array(items), format, depth), format)
    decreases items, 1
  {
    var texts := seq(|items|, i requires 0 <= i < |items| => Print(items[i], format, depth + 1));
    forall k | 0 <= k < |texts| ensures Plain(texts[k], format) {
      PrintIsPlain(items[k], format, depth + 1);
    }
    BracketsArePlain(texts, format);
  }

  lemma {:induction false} ObjectIsPlain(ms: seq<Member>, format: bool, depth: nat)
    requires forall k :: 0 <= k < |ms| ==> Printable(ms[k].value)
    ensures Plain(Print(Object(ms), format, depth), format)
    decreases ms, 1
  {
    var texts := seq(|ms|, i requires 0 <= i < |ms| =>
      KeyText(ms[i].key, format, depth + 1) + Print(ms[i].value, format, depth + 1));
    forall k | 0 <= k < |texts| ensures Plain(texts[k], format) {
      PrintIsPlain(ms[k].value, format, depth + 1);
      MemberIsPlain(ms[k].key, Print(ms[k].value, format, depth + 1), format, depth + 1);
    }
    BracesArePlain(texts, format, depth);
  }

  /** Unformatted text has no byte below 32 at all. */
  lemma {:induction false} PrintIsPlain(v: Json, format: bool, depth: nat)
    requires Printable(v)
    ensures Plain(Print(v, format, depth), format)
    decreases v, 0
  {
    match v
    case Number(n) => SignedIsPlain(n);
    case String(s) => EscapeIsPlain(s);
    case Array(items) => ArrayIsPlain(items, format, depth);
    case Object(ms) => ObjectIsPlain(ms, format, depth);
    case _ =>
  }
}
