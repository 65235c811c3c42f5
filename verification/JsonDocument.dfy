/** Documents as they travel: printed, framed, read and parsed again. */
module JsonDocument {
  import opened Bytes
  import B = JsonBytes
  import Decimal
  import F = Framing
  import G = JsonGrammar
  import opened JsonText
  import Parser = JsonParser
  import Printer = JsonPrinter
  import R = FramingRoundTrip
  import RoundTrip = JsonRoundTrip

  /** Printing into the growing buffer and parsing that text gives the tree back. */
  method PrintThenParse(v: Json, format: bool) returns (r: Option<Json>)
    requires Printable(v) && NestsWithin(v, G.NESTING_LIMIT)
    ensures r.Some? ==> r.value == v
    ensures |Print(v, format, 0)| + 2 <= INT_MAX ==> r.Some?
  {
    var text := Printer.PrintText(v, format);
    if text.None? {
      return None;
    }
    RoundTrip.ParseUndoesPrint(v, format);
    var end;
    r, end := Parser.ParseWithLength(text.value);
  }

  // ---------------------------------------------------------------- printed text as a line

  /** Unformatted text holds no line break: as a line it is the text and a newline. */
  lemma PrintedIsFlat(v: Json)
    requires Printable(v)
    ensures R.Flatten(Print(v, false, 0)) == Print(v, false, 0)
    ensures R.Encoded(F.Ndjson, Print(v, false, 0)) == Print(v, false, 0) + [LF]
  {
    var t := Print(v, false, 0);
    B.PrintIsPlain(v, false, 0);
    forall k | 0 <= k < |t| ensures R.Flatten(t)[k] == t[k] { R.FlattenAt(t, k); }
  }

  /** The first and last byte of a value's text are visible, and the first is none a header or a mark starts with. */
  lemma PrintedEnds(v: Json)
    requires Printable(v)
    ensures var t := Print(v, false, 0);
            t != [] && t[0] > 32 && t[|t| - 1] > 32 && Lower(t[0]) != F.KEY[0] && t[0] != 0xEF
  {
    match v
    case Number(n) => SignedEnds(n);
    case Array(items) => PrintOfArray(items, false, 0);
    case Object(ms) => PrintOfObject(ms, false, 0);
    case _ =>
  }

  lemma SignedEnds(n: int)
    ensures var t := Decimal.Signed(n); IsDigit(t[|t| - 1]) && (IsDigit(t[0]) || t[0] == MINUS)
  {
  }

  /** Nothing is trimmed from a text that starts and ends visibly. */
  lemma NothingToTrim(t: bytes)
    requires t != [] && t[0] > 32 && t[|t| - 1] > 32
    ensures R.TrimText(t) == t
  {
    assert F.TrimLeft(t, 0, |t|) == 0 && F.TrimRight(t, 0, |t|) == |t|;
  }

  lemma KeyStartsWithC(t: bytes)
    requires t != [] && Lower(t[0]) != F.KEY[0]
    ensures !F.KeyAt(t, 0)
  {
    if F.KeyAt(t, 0) { R.KeyByte(t, 0, |F.KEY|, 0); }
  }

  /** The unformatted texts of a sequence of trees. */
  function Texts(vs: seq<Json>): (r: seq<bytes>)
    ensures |r| == |vs|
  {
    seq(|vs|, i requires 0 <= i < |vs| => Print(vs[i], false, 0))
  }

  lemma TextSurvives(v: Json)
    requires Printable(v)
    ensures var t := Print(v, false, 0); t != [] && R.TrimText(R.Flatten(t)) == t && R.PlainStart(t)
  {
    PrintedEnds(v);
    PrintedIsFlat(v);
    NothingToTrim(Print(v, false, 0));
    KeyStartsWithC(Print(v, false, 0));
  }

  /**
   * JSON over the newline-delimited wire: the trees printed, encoded and concatenated come back as
   * the texts that were printed, and each parses to the tree it was printed from.
   */
  lemma LinesCarryTrees(vs: seq<Json>)
    requires forall k :: 0 <= k < |vs| ==>
               Printable(vs[k]) && NestsWithin(vs[k], G.NESTING_LIMIT) && |Print(vs[k], false, 0)| < F.MAX_MESSAGE
    ensures F.Messages(R.Stream(F.Ndjson, Texts(vs)), F.Unknown, 0) == Texts(vs)
    ensures forall k :: 0 <= k < |vs| ==>
              G.ParseWithLength(Texts(vs)[k]).Some? && G.ParseWithLength(Texts(vs)[k]).value.value == vs[k]
  {
    forall k | 0 <= k < |vs|
      ensures Texts(vs)[k] != [] && R.TrimText(R.Flatten(Texts(vs)[k])) == Texts(vs)[k] && R.PlainStart(Texts(vs)[k])
      ensures G.ParseWithLength(Texts(vs)[k]).Some? && G.ParseWithLength(Texts(vs)[k]).value.value == vs[k]
    {
      TextSurvives(vs[k]);
      RoundTrip.ParseUndoesPrint(vs[k], false);
    }
    R.LineMessagesAsSent(Texts(vs));
    R.LinesReadBack(Texts(vs));
  }
}
