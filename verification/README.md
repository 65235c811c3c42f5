# Model of the DisplayXR MCP framework

The framework carries JSON-RPC between an AI agent and running applications. The adapter reads
messages from stdin and pumps them to a server inside the application, or aggregates many such servers
behind one agent connection; the server answers tool calls, broadcasts notifications and keeps a log
ring; vendored cJSON parses and prints every message. This project models that code in Dafny, component
by component and in the form the C code has (classes whose methods update their fields, loops over
arrays, linked nodes), and proves what it is for.

| files | component | main results |
|---|---|---|
| `JsonText`, `JsonGrammar`, `JsonRoundTrip` | what printing and parsing compute, as functions | parsing undoes printing, for every tree up to 1000 containers deep, formatted or not |
| `JsonSyntax`, `JsonAccepted`, `JsonStandard` | the texts cJSON takes, as syntax trees with their text and value; those of RFC 8259 among them | the parser accepts a text for a value if and only if it starts with the text of a tree of that value; every RFC 8259 text, surrogates paired, is one, and so is what is printed |
| `JsonParser`, `Utf` | cJSON's recursive-descent parser over offset and depth, its two-pass strings and `\u` escapes | the parser computes the grammar; the second pass never writes past the first pass's estimate; escapes become the UTF-8 of RFC 3629 |
| `JsonPrinter`, `JsonBytes` | cJSON's printer over its growing buffer | the buffer holds exactly the text printed so far, whatever the growth |
| `ChildList` | cJSON's doubly linked child lists | append, detach, insert, replace and the parser's own building keep the links and act as sequence operations |
| `Framing`, `StdioReader`, `Transport` | the resumable stdin reader | detected framing and messages depend on the byte stream alone, not on how reads split it |
| `FramingRoundTrip`, `FramingStreams`, `JsonFlatten`, `JsonDocument` | the encoder, streams as other programs write them, line flattening, whole documents | encoded sequences read back; so do lines without a last newline and frames whatever else stands in their headers; flattening keeps the meaning exactly when no string keeps a raw line break; trees survive the wire |
| `ConnectionFrames`, `Pump` | framed connections and the two pump threads | a cut frame is never received; stdin to server delivers in order exactly the messages the connection takes whole, and all of them if it lasts; the same down to stdout |
| `AppNames`, `Rpc`, `AggregatorState`, `Aggregator`, `AggregatorRuns` | the workspace aggregator, one method per lock-held region | over every interleaving: each call answered at most once, calls conserved, none lost while responses come from connections their requests were written to, ids never reissued, one slot per process, names that route back; each answer to a call, each name given and each tool listed exactly under its condition |
| `ServerWire`, `ServerSlots` | the server's connections | only whole frames precede a failed write and nothing follows it, and without one all go out; each connection closed once; stop drains all slots |
| `LogRing` | the 512-slot log ring | polling delivers every entry once and in order, or counts it as dropped, which it does just for the overwritten ones |

Reads and sends are abstract: a `Source` hands a byte stream out in reads of any sizes, a `Sink` takes any
part of what is sent, is interrupted, late, or fails, as its plan says. What comes of a write is a function of that
plan (`Transport.Sends`), and so are the outcomes of the pumps and of a server's connection; a plan lasts for n bytes
if no send of it fails and n of them take something. Threads are modelled by their atomic steps: a run is
any sequence of lock-held regions and writes. A step that cannot happen in the current state does nothing.
Bytes are integers from 0 to 255, and the bit operations of the C code on them are written as arithmetic.
Memory allocation succeeds, and strings handed to the printer contain no NUL.

Where the code and its documentation disagree the model follows the code:

- Section 10.5 of the repository's protocol document promises that the agent never waits in vain. The reader
  of a backend frees an in-flight entry before it compares the backend, so a call is lost exactly when another
  backend answers its local id (`AggregatorRuns.AnswerTo`; a whole run that ends so is
  `AggregatorRuns.CallIsLost`). If over a run every response came from a connection that a request with its id was
  written to, none is lost (`AggregatorRuns.Run`).
- The same section promises that prefixes are never reused. A name comes back exactly when it was given out
  without being entered in the registry, or when no candidate is free and the fallback is already reserved
  (`AppNames.ReuseIff`, over whole runs `AppNames.NamesApartIff`); both happen (`AppNames.LooseNameComesBack`,
  `AppNames.EnteredNameComesBack`). As long as every assignment finds a free candidate and room among the 128
  reserved names, and so for the first 99, no name comes back (`AppNames.ApartWhileReserved`).
- The shell's prefix is never reserved, so an app called `shell` gets it too, and the later of the two slots is not
  reached by it (`Aggregator.Aggregator.ShellCollides`; a run to that state is `AggregatorRuns.ShellBesideShell`).
- RFC 8259 requires four hexadecimal digits in a `\u` escape; the parser takes any other four bytes for 0, a NUL
  that ends the C string (`Utf.EscapeDecodes`, `JsonGrammar.BadHexEndsString`): `"a\uZZZZb"` reads as `a`
  (`JsonGrammar.BadHexReadsAs`).
- The encoder's documentation relies on line breaks being escaped inside strings, as RFC 8259 requires; the parser
  accepts raw ones. Replacing line breaks keeps the meaning exactly when no string of the value keeps a raw one
  (`JsonFlatten.FlattenIff`).
- How reads split the stream can matter in two cases only (`StdioReader.ReadAll`): for a header line of more
  than 1025 bytes (`StdioReader.OverlongHeaderDependsOnReads`), and for a length value that does not stand on its
  own line (`StdioReader.BlankLengthReadsMemory`). The second is worse than a dependence on reads. The buffer has no
  terminator behind the bytes read (`adapter/stdio_framing.c:64-69`), so where only blanks or digits are buffered behind
  the key, strtoul at line 246 reads on into memory that was never written. The model gives the reader such memory as
  a parameter: what is read then depends on it.

Several invariants of the aggregator come in two forms, tied by a lemma: a recursive one that the methods carry
because it is cheap to keep, and a quantified one that says what it means. The quantified ones are the ones to
read: `FatesLinked`, `SeatsLinked` and the right sides of the lemmas called `...Iff` in `AggregatorState`.

## Model

| member | source | states |
|---|---|---|
| Utf.DecodeOfEncode | external/cjson/cJSON.c:723-772 | the encoding of every scalar value decodes, by section 4 of RFC 3629, to that value |
| Utf.EncodeOfDecode | external/cjson/cJSON.c:723-772 | every well-formed UTF-8 sequence is the encoding of the scalar it decodes to |
| Utf.ParseHex4 | external/cjson/cJSON.c:623-656 | the shifting loop gives the positional value of four hex digits, 0 if one is not a digit |
| Utf.DecodeLiteral | external/cjson/cJSON.c:670-721 | code point and length of an escape; lone or misordered surrogates and short input are refused |
| Utf.WriteUtf8 | external/cjson/cJSON.c:723-772 | the backwards byte loop writes exactly the encoding and leaves earlier output alone |
| Utf.Utf16LiteralToUtf8 | external/cjson/cJSON.c:660-778 | a good escape is consumed and its UTF-8 appended; a bad one writes nothing |
| Utf.PairIsUnique | external/cjson/cJSON.c:714-715 | different surrogate pairs give different code points |
| Utf.EscapeDecodes | external/cjson/cJSON.c:660-778 | the bytes written decode to the unit or to the pair's code point; a surrogate is accepted if and only if it opens a complete pair |
| Utf.BadHexIsNul | external/cjson/cJSON.c:645-649 | an escape without four hexadecimal digits stands for NUL and takes six bytes |
| JsonGrammar.BadHexEndsString | external/cjson/cJSON.c:836-881 | behind such an escape the rest of the string is lost, but still checked |
| JsonGrammar.BadHexReadsAs | external/cjson/cJSON.c:623-656 | the text `"a\uZZZZb"` parses to the string `a` |
| JsonParser.EscapeFits | external/cjson/cJSON.c:795-882 | wherever the second pass stands, a two-byte escape stays within the first pass's estimate |
| JsonParser.RoomForPairs | external/cjson/cJSON.c:795-882 | n pairs of bytes leave room for n output bytes, even if escapes counted by the first pass straddle them |
| JsonParser.LiteralFits | external/cjson/cJSON.c:795-882 | a `\u` escape's UTF-8 fits the estimate even if it crosses escape pairs the first pass counted |
| JsonParser.Parser.SkipWhitespace | external/cjson/cJSON.c:1047-1070 | moves to the first byte above 32, or to the last byte if there is none |
| JsonParser.Parser.MeasureString | external/cjson/cJSON.c:794-816 | finds the closing quote and counts the escapes before it |
| JsonParser.Parser.CopyEscape | external/cjson/cJSON.c:836-881 | one escape's bytes are appended within the estimate, or the literal is refused |
| JsonParser.Parser.UnescapeBody | external/cjson/cJSON.c:818-893 | the output sized by the first pass holds the whole unescaped body, with room for the terminator |
| JsonParser.Parser.ParseString | external/cjson/cJSON.c:781-908 | succeeds exactly where the grammar reads a string, with its value as a C string |
| JsonParser.Parser.NumberLength | external/cjson/cJSON.c:320-352 | the bytes copied for strtod: at most 63 number characters |
| JsonParser.Parser.ParseNumber | external/cjson/cJSON.c:307-381 | the offset where strtod stops on the copied bytes, and the 32-bit integer they denote, else their text |
| JsonGrammar.NumberOfIff | external/cjson/cJSON.c:354-381 | in the model, which goes by the decimal value: a number is taken for the integer n if and only if n fits 32 bits and is its value, with point and exponent or without; the source also takes n where only the double rounds to n |
| JsonGrammar.ExponentsAndPoints | external/cjson/cJSON.c:354-381 | `1e2` is 100, `1.0` is 1, `1.5` is no integer |
| JsonParser.Parser.ParseValue | external/cjson/cJSON.c:1325-1377 | dispatches as the grammar does; on success value, offset and depth are the grammar's |
| JsonParser.Parser.NextElement | external/cjson/cJSON.c:1512-1519 | one turn reads the value behind the separator and the blanks around it |
| JsonParser.Parser.ElementTurn | external/cjson/cJSON.c:1489-1521 | the items read so far and those to come make up the grammar's list |
| JsonParser.Parser.ParseElements | external/cjson/cJSON.c:1486-1526 | the loop returns the grammar's list up to the closing bracket |
| JsonParser.Parser.ParseArray | external/cjson/cJSON.c:1454-1549 | array, empty array, nesting limit and truncated text as in the grammar |
| JsonParser.Parser.ParseMember | external/cjson/cJSON.c:1675-1699 | key, colon and value as in the grammar; without a key or a colon none |
| JsonParser.Parser.NextEntry | external/cjson/cJSON.c:1670-1700 | one turn reads a member; a text ending behind the separator is refused |
| JsonParser.Parser.EntryTurn | external/cjson/cJSON.c:1647-1702 | the members read so far and those to come make up the grammar's list |
| JsonParser.Parser.ParseMembers | external/cjson/cJSON.c:1644-1707 | the loop returns the grammar's member list up to the closing brace |
| JsonParser.Parser.ParseObject | external/cjson/cJSON.c:1614-1729 | object, empty object, nesting limit and truncated text as in the grammar |
| JsonParser.ParseWithLength | external/cjson/cJSON.c:1104-1181 | the parser takes the text for a value if and only if it starts, up to where the parser stops, with blanks or a byte-order mark and the text of a tree of that value (`JsonAccepted.IsDocument`); what lies behind is ignored |
| JsonRoundTrip.EscapedReadsBack | external/cjson/cJSON.c:781-908 | both passes undo the escaping of any NUL-free string, in any surroundings |
| JsonRoundTrip.QuotedReadsBack | external/cjson/cJSON.c:911-1030 | parsing the printed literal of any NUL-free string gives it back |
| JsonRoundTrip.NumberReadsBack | external/cjson/cJSON.c:553-620 | the text of every 32-bit integer parses to that integer and ends there |
| JsonRoundTrip.ListReadsBack | external/cjson/cJSON.c:1486-1526 | separated item texts, each reading back alone, read back as the list |
| JsonRoundTrip.PrintedReadsBack | external/cjson/cJSON.c:1325-1377 | any printable tree's text reads back as that tree, wherever it lies in a larger text |
| JsonRoundTrip.ParseUndoesPrint | external/cjson/cJSON.c:1325-1843 | every tree at most 1000 containers deep, printed formatted or not, parses to itself and consumes the whole text |
| JsonRoundTrip.PrintInjective | external/cjson/cJSON.c:1380-1451 | equal texts, in either format, come from equal trees |
| JsonSyntax.StringReads | external/cjson/cJSON.c:781-908 | a string reads as the C string of its bytes and of what its escapes stand for, up to the first NUL; where four bytes behind `\u` are no hexadecimal number they stand for NUL |
| JsonSyntax.NumberReads | external/cjson/cJSON.c:307-381 | the longest number at its place, of at most 63 bytes and in any form strtod takes, is read whole, for what it denotes |
| JsonSyntax.NumberFound | external/cjson/cJSON.c:307-381 | where strtod stops, the bytes before are those of a number, in one of the forms it takes |
| JsonSyntax.StrtodIsLongest | external/cjson/cJSON.c:354-358 | and no longer number stands there |
| JsonSyntax.ScaledOfLexeme | external/cjson/cJSON.c:354-381 | the value read from a number's text is that of its sign, digits, fraction and exponent |
| JsonSyntax.ListReads | external/cjson/cJSON.c:1486-1526 | items with any bytes up to the space around each, separated by commas, read as their values |
| JsonSyntax.ValueReads | external/cjson/cJSON.c:1325-1377 | the text of any value is read whole, for the value, wherever it lies |
| JsonSyntax.TextsAreTaken | external/cjson/cJSON.c:1104-1181 | every text of a tree, with any bytes up to the space wherever white space may stand, at most 1000 containers deep, is accepted for the value it denotes, counted or as a C string |
| JsonAccepted.StringFound | external/cjson/cJSON.c:781-908 | what the parser takes for a string is, byte for byte, the text of some characters and escapes, and its value is theirs |
| JsonAccepted.ElementsFound | external/cjson/cJSON.c:1486-1526 | what it takes for elements is the text of blanks, values and commas |
| JsonAccepted.EntriesFound | external/cjson/cJSON.c:1644-1707 | what it takes for members is the text of blanks, keys, colons, values and commas |
| JsonAccepted.ValueFound | external/cjson/cJSON.c:1325-1377 | what it takes for a value is, byte for byte, the text of a tree with that value |
| JsonAccepted.AcceptedIff | external/cjson/cJSON.c:1104-1181 | a text is accepted for a value, up to a place, if and only if up to there it is a byte-order mark or none, blanks, and the text of a tree of that value, at most 1000 containers deep; a document that is a number must be the longest at its place |
| JsonStandard.StandardTextsAreTaken | external/cjson/cJSON.c:1104-1181 | every text of RFC 8259, with white space wherever it may stand, at most 1000 containers deep, with numbers of at most 63 bytes and surrogates in pairs, is accepted for the value it denotes |
| JsonStandard.PrintIsText | external/cjson/cJSON.c:1380-1843 | what the printer writes for a tree is a text of RFC 8259, and denotes the tree |
| JsonBytes.PrintIsPlain | external/cjson/cJSON.c:984-1027 | unformatted text has no byte below 32, formatted text only line breaks and tabs |
| JsonPrinter.PrintBuffer.Ensure | external/cjson/cJSON.c:447-530 | room is made, everything in the buffer survives growth; fails exactly when the size would pass INT_MAX |
| JsonPrinter.PrintBuffer.Put | external/cjson/cJSON.c:1389-1416 | writes stay inside what was reserved and append the text and its NUL |
| JsonPrinter.PrintBuffer.UpdateOffset | external/cjson/cJSON.c:533-543 | strlen from a lagging offset moves it to the end of the printed text |
| JsonPrinter.PrintBuffer.CountEscapes | external/cjson/cJSON.c:938-962 | the counted length is the length of the escaped text |
| JsonPrinter.PrintBuffer.PutEscaped | external/cjson/cJSON.c:984-1027 | one byte's escape is appended at the output position |
| JsonPrinter.PrintBuffer.PutEscapes | external/cjson/cJSON.c:984-1027 | the second loop writes the escaped text and nothing else |
| JsonPrinter.NothingToEscape | external/cjson/cJSON.c:970-979 | the unescaped copy is taken only where it is the escaped text |
| JsonPrinter.PrintBuffer.PutBody | external/cjson/cJSON.c:970-1025 | either way of copying writes the escaped text |
| JsonPrinter.PrintBuffer.PrintString | external/cjson/cJSON.c:911-1030 | the quoted, escaped string is appended; fails exactly when there is no room for it |
| JsonPrinter.PrintBuffer.PrintNumber | external/cjson/cJSON.c:553-620 | the digits of a 32-bit integer are appended |
| JsonPrinter.PrintBuffer.PrintValue | external/cjson/cJSON.c:1380-1451 | the value's text is appended, earlier bytes kept, depth restored |
| JsonPrinter.PrintBuffer.PrintElements | external/cjson/cJSON.c:1575-1599 | the loop appends the separated element texts |
| JsonPrinter.PrintBuffer.PrintArray | external/cjson/cJSON.c:1552-1611 | the array's text is appended and the depth restored |
| JsonPrinter.PrintBuffer.PrintKey | external/cjson/cJSON.c:1761-1794 | indentation, quoted key and colon are appended |
| JsonPrinter.PrintBuffer.PrintMember | external/cjson/cJSON.c:1761-1822 | key, value and what follows are appended |
| JsonPrinter.PrintBuffer.PrintMembers | external/cjson/cJSON.c:1759-1823 | the loop appends the separated member texts |
| JsonPrinter.PrintBuffer.PrintObject | external/cjson/cJSON.c:1732-1843 | the object's text is appended and the depth restored |
| JsonPrinter.PrintText | external/cjson/cJSON.c:1196-1261 | the result is the pure printer's text; it is there whenever the text fits INT_MAX |
| JsonDocument.PrintThenParse | external/cjson/cJSON.c:1104-1261 | the buffer printer and the imperative parser compose to the identity |
| JsonDocument.PrintedIsFlat | adapter/stdio_framing.c:302-309 | as a line, unformatted text is the text and one newline |
| JsonDocument.LinesCarryTrees | adapter/stdio_framing.c:279-310 | trees printed, encoded as lines and concatenated come back as texts that parse to the same trees |
| JsonFlatten.FlattenIff | adapter/stdio_framing.c:302-309 | flattening any text leaves its parse result, value and end, unchanged if and only if the text is refused or no string literal of the value keeps a raw line break; a break behind a NUL is not kept |
| JsonFlatten.FlattenKeepsMeaning | adapter/stdio_framing.c:302-309 | in particular any text, well-formed or not, without raw line breaks inside strings parses to the same result |
| JsonFlatten.UnescapeFlat | external/cjson/cJSON.c:818-893 | both readings of a string body fail alike, or differ exactly by a line break kept |
| JsonFlatten.ValueSame | external/cjson/cJSON.c:1325-1377 | the same for a value at any offset outside strings, with the same end |
| JsonFlatten.NumberRead | external/cjson/cJSON.c:307-381 | a number reads the same in both texts and ends outside strings |
| JsonFlatten.BreakInStringMatters | adapter/stdio_framing.c:302-309 | the shortest text whose meaning flattening changes |
| ChildList.ListIsUnique | external/cjson/cJSON.c:1974-2005 | the links determine the child sequence |
| ChildList.Links | external/cjson/cJSON.c:1974-2005 | next and prev are inverse, the head's prev is the tail |
| ChildList.GetItem | external/cjson/cJSON.c:1869-1886 | child number `index`, or null past the end |
| ChildList.Append | external/cjson/cJSON.c:1974-2005 | the sequence grows by the item; the links hold if and only if it was not yet a child and the list was empty or its next was; refused cases change nothing |
| ChildList.Detach | external/cjson/cJSON.c:2205-2239 | exactly the item leaves the sequence and points nowhere |
| ChildList.InsertBefore | external/cjson/cJSON.c:2301-2312 | the item stands just before the given child, if and only if it is neither the parent nor a child already |
| ChildList.Insert | external/cjson/cJSON.c:2281-2313 | insertion at the index, append past the end, refusal of negative indexes and missing arguments; for any item, when the links still hold |
| ChildList.Replace | external/cjson/cJSON.c:2315-2362 | the replacement takes the item's place and the item points nowhere; for any replacement, when the links still hold |
| ChildList.BuildChildren | external/cjson/cJSON.c:1489-1540 | the parser's own linking builds a well-formed list of the items in order |
| StdioReader.CapacityGrows | adapter/stdio_framing.c:57-60 | a doubled capacity below 16 MiB can be doubled again without passing 16 MiB |
| StdioReader.Reader.Compact | adapter/stdio_framing.c:51-56 | unconsumed bytes move to the front, the stream position stays |
| StdioReader.Reader.Grow | adapter/stdio_framing.c:57-68 | a full buffer doubles or, at 16 MiB, is refused |
| StdioReader.Reader.Fill | adapter/stdio_framing.c:44-76 | position kept; more bytes, or the stream is at its end, or 16 MiB wait |
| StdioReader.Reader.Judge | adapter/stdio_framing.c:109-127 | framing decided only when the buffered bytes settle it |
| StdioReader.Reader.DetectTurn | adapter/stdio_framing.c:95-136 | marks split over reads are neither skipped early nor mistaken |
| StdioReader.Reader.Detect | adapter/stdio_framing.c:92-137 | framing and position are functions of the stream; fails exactly if only blanks and marks come |
| StdioReader.Reader.ConsumeLine | adapter/stdio_framing.c:159-179 | a buffered line is taken trimmed, a blank one skipped |
| StdioReader.Reader.ConsumeRest | adapter/stdio_framing.c:181-195 | the last unterminated line is taken (its message is that of `FramingStreams.LastLine`), an over-long one dropped |
| StdioReader.Reader.NdjsonTurn | adapter/stdio_framing.c:158-197 | no newline lies between position and resume point, also after compaction |
| StdioReader.Reader.NextNdjson | adapter/stdio_framing.c:154-198 | the next line as a function of the stream |
| StdioReader.Reader.HeaderLine | adapter/stdio_framing.c:200-214 | a header line's length; 0 if the stream ends first or more than 1024 bytes wait without newline |
| StdioReader.Reader.ReadLength | adapter/stdio_framing.c:237-249 | strtoul over the buffer and the memory behind it gives the line's number if a visible byte stands on the line; where it does not, what it finds behind |
| StdioReader.Reader.TakeHeader | adapter/stdio_framing.c:227-250 | blank line ends a begun block, other lines update the length |
| StdioReader.Reader.ReadBody | adapter/stdio_framing.c:255-262 | the body byte for byte, or nothing if the stream ends in it |
| StdioReader.Reader.NextContentLength | adapter/stdio_framing.c:216-263 | the next frame as a function of the stream, while header lines fit |
| StdioReader.Reader.Next | adapter/stdio_framing.c:265-275 | message, framing and new position as functions of the stream; where they are not, what the first read decides |
| StdioReader.Reader.NextMessage | adapter/stdio_framing.c:265-275 | takes the first of the messages still to come |
| StdioReader.ReadAll | adapter/stdio_framing.c:44-275 | for every way of splitting the stream into reads and whatever lies in memory behind the buffer, the same framing and the same messages; none at all for a length line that does not fit the first buffer; else what the first read makes of the first line |
| StdioReader.OverlongHeaderDependsOnReads | adapter/stdio_framing.c:202-214 | a stream starting with a length line of 1025 to 4095 bytes and a frame in order: read in one way it gives no message, in another the body first |
| StdioReader.BlankLengthReadsMemory | adapter/stdio_framing.c:237-249 | a length line without a number before a line starting with one: read in one way the body that number announces comes, in another the length is whatever number lies in the memory behind the buffer |
| FramingRoundTrip.PaddedFrame | adapter/stdio_framing.c:216-263 | there is such a first stream for every number of blanks |
| FramingRoundTrip.SplitFrame | adapter/stdio_framing.c:216-263 | and one of the second kind, for which memory holding nothing or a digit 1 gives two further results |
| Framing.StrtoulOwnLine | adapter/stdio_framing.c:237-249 | with a visible byte before the newline strtoul does not look past it, whatever is buffered |
| Framing.StrtoulSeenIs | adapter/stdio_framing.c:237-249 | and so the number is the line's, whatever is buffered and whatever memory lies behind |
| Framing.StrtoulOfMemory | adapter/stdio_framing.c:237-249 | with only blanks on the line and nothing buffered behind it, the number is that at the start of the memory behind |
| FramingRoundTrip.Encode | adapter/stdio_framing.c:279-310 | the encoder's buffer holds header and body, or the flattened line |
| FramingRoundTrip.FlattenAt | adapter/stdio_framing.c:302-309 | exactly line breaks become spaces, byte by byte |
| FramingRoundTrip.HeaderReadsBack | adapter/stdio_framing.c:282-296 | the printed header announces its length to the reader |
| FramingRoundTrip.FrameReadsBack | adapter/stdio_framing.c:282-296 | a frame of 1 byte to 16 MiB anywhere in a stream is read whole |
| FramingRoundTrip.FramesReadBack | adapter/stdio_framing.c:216-310 | a framed sequence reads back byte for byte and is detected as Content-Length |
| FramingRoundTrip.PlainLine | adapter/stdio_framing.c:105-127 | a line, terminated or not, whose trimmed text is neither header key nor mark is not taken for one |
| FramingRoundTrip.FirstLine | adapter/stdio_framing.c:92-137 | such a first line is detected as newline-delimited |
| FramingRoundTrip.LinesReadBack | adapter/stdio_framing.c:154-310 | encoded lines read back as the trimmed, flattened, non-blank bodies |
| FramingRoundTrip.LineMessagesAsSent | adapter/stdio_framing.c:302-309 | bodies that trimming and flattening leave alone come back as sent |
| FramingStreams.TrimTextIff | adapter/stdio_framing.c:164-170 | the trimmed line is the slice with only spaces, tabs, CR and LF around it that neither starts nor ends with one |
| FramingStreams.FramesBehindMarks | adapter/stdio_framing.c:92-137 | any byte-order marks and white space before framed messages change nothing |
| FramingStreams.LastLine | adapter/stdio_framing.c:181-195 | a last line without a newline is a message, unless it is blank |
| FramingStreams.LinesWithRest | adapter/stdio_framing.c:92-198 | marks and white space, any lines, CR before the newline or not, and a last line without a newline: the messages are the trimmed lines that are not blank, in order, the last one too |
| FramingStreams.OverlongLineEnds | adapter/stdio_framing.c:181-195 | 16 MiB without a newline are dropped and end the reading; the lines before are messages |
| FramingStreams.LengthIs | adapter/stdio_framing.c:237-249 | a length line says its number: the key in either case, blanks, zeros in front, other text behind |
| FramingStreams.FrameWithIsRead | adapter/stdio_framing.c:216-263 | a frame with any other header lines before and behind its length line is read, byte for byte, if its length is 1 byte to 16 MiB; a length of 0, above 16 MiB, or beyond the stream gives no message |
| FramingStreams.LengthMissing | adapter/stdio_framing.c:227-236 | a header without a length line gives none |
| FramingStreams.FrameWithArrives | src/mcp_server.c:95-130 | either end of a connection receives such a frame too, up to its own size, and refuses the same lengths |
| FramingStreams.LongLineLoses | adapter/stdio_framing.c:381-419 | a first header line of 255 bytes without a newline loses the frame |
| Transport.Source.ReadExact | src/mcp_transport.c:179-198 | exactly n bytes in order, or failure at the end of the stream |
| Transport.Sink.Write | src/mcp_transport.c:200-219 | exactly what the sends let through goes out, lateness being waited for: all, or a proper front on a dead connection |
| Transport.Sink.WriteBounded | src/mcp_transport.c:222-268 | the same, but lateness aborts the connection |
| Transport.Sink.WriteStdout | adapter/stdio_framing.c:359-377 | the same, but any send that takes nothing ends it, an interrupted one too |
| Transport.LastsIff | src/mcp_transport.c:200-268 | the sends that last, spelled out: each takes something, is interrupted, or, for the unbounded write, is late; for a bounded one it takes something or is interrupted; for stdout it takes something; and enough of them take something |
| Transport.LastingSends | src/mcp_transport.c:200-268 | where no send fails and n of them take something, n bytes go out, however few each takes |
| ConnectionFrames.ReadLine | adapter/stdio_framing.c:381-397 | a whole line of at most 255 bytes, or nothing and how far it read |
| ConnectionFrames.ReadLengthLines | adapter/stdio_framing.c:402-419 | the header block's last length and where it ends, at either end of the wire |
| ConnectionFrames.ReadFrame | adapter/stdio_framing.c:399-436 | receives exactly the frame at the stream position, or none |
| ConnectionFrames.ReadAllFrames | src/mcp_server.c:95-130 | the sequence received is a function of the stream |
| ConnectionFrames.WriteFrame | src/mcp_server.c:132-148 | exactly what the sends let through of header and body goes out: a whole frame, or a proper front of one on a dead connection |
| ConnectionFrames.WriteFrameBounded | src/mcp_server.c:218-241 | the same for notifications, header and body each bounded |
| ConnectionFrames.LastingFrames | src/mcp_server.c:132-148 | over a connection that lasts for all of them, all frames go out whole |
| ConnectionFrames.FrameArrives | src/mcp_server.c:95-130 | a written frame is received if its size is 1 to the end's limit, and refused otherwise |
| ConnectionFrames.CutFrame | src/mcp_server.c:95-130 | a frame cut anywhere is not received |
| ConnectionFrames.FramesArrive | adapter/stdio_framing.c:399-444 | whole frames followed by any cut one: exactly the whole ones arrive, in order, up to one refused |
| ConnectionFrames.AllAccepted | src/mcp_server.c:115-117 | bodies of 1 byte to 4 MiB (16 MiB at the adapter) are all accepted |
| Pump.Latch.Set | adapter/stdio_framing.c:322-343 | the first framing set stays |
| Pump.Forward | adapter/displayxr_mcp.c:69-81 | one message moves from reader to connection, whole if and only if the connection takes it; the latch is set before |
| Pump.PumpUp | adapter/displayxr_mcp.c:66-82 | the frames sent are those of as many messages as the connection takes whole, in order, and of all if it lasts; the connection is dead afterwards if and only if it was or a frame failed; the latch gets the client's framing |
| Pump.PumpDown | adapter/displayxr_mcp.c:83-102 | as many frames of the server go out as stdout takes whole, in order, in the client's framing, and all if it lasts; the framing is waited for, and without one nothing is written |
| Pump.Deliver | adapter/displayxr_mcp.c:83-102 | one turn: of the frames stdout takes whole from here on, the turn sends the first, or there is none |
| Pump.LastingWrites | adapter/stdio_framing.c:359-377 | a stdout that lasts for all of them takes all |
| Pump.MessagesAreSendable | adapter/stdio_framing.c:154-263 | every message read has 1 byte to 16 MiB |
| Pump.SentArrives | adapter/displayxr_mcp.c:76-80 | the other end receives exactly the messages whose frames are whole |
| Pump.UpEndToEnd | adapter/displayxr_mcp.c:66-82 | stdin to server, over all splittings of reads and sends: the server receives exactly the messages whose frames the connection takes whole, in order, up to one it refuses; a failure is told if and only if one was not taken; over a connection that lasts none is |
| AppNames.CheckAppId | src/mcp_server.c:322-340 | true if and only if 1 to 32 letters, digits or dashes starting with a letter or digit |
| AppNames.Slugify | adapter/workspace_aggregator.c:237-260 | the buffer loop computes the slug, which is that of `AppNames.SlugIff` |
| AppNames.SlugIff | adapter/workspace_aggregator.c:233-260 | a slug is the letters and digits of the name, in order and in lower case, with one dash between two of them if and only if other bytes stand between them, as many as fit 32 bytes; `app` if and only if there are none |
| AppNames.SlugIsValid | adapter/workspace_aggregator.c:233-260 | every slug is a valid app id without double or trailing dashes |
| AppNames.SlugIsIdempotent | adapter/workspace_aggregator.c:233-260 | a slug is its own slug |
| AppNames.CandidatesDiffer | adapter/workspace_aggregator.c:313-326 | the 99 names tried are different |
| AppNames.UsedCandidatesTakePlaces | adapter/workspace_aggregator.c:311-328 | k used candidates need k places in the registry (pigeonhole) |
| AppNames.AssignedIsFresh | adapter/workspace_aggregator.c:311-328 | with at most 98 names reserved the assigned one is new and gets reserved |
| AppNames.AssignedIsFreshIff | adapter/workspace_aggregator.c:311-328 | the assigned name is new if and only if a candidate is free or the fallback is |
| AppNames.NameForIff | adapter/workspace_aggregator.c:306-328 | the name assigned is the bare one if it is unused, else the one with the least number from 2 to 99 that is, else the one with an x; it is registered unless none was unused or 128 are |
| AppNames.NameReusedIff | adapter/workspace_aggregator.c:311-328 | asked for twice in a row a slug gets the same name if and only if no candidate was free or 128 names are reserved |
| AppNames.ReuseIff | adapter/workspace_aggregator.c:225-328 | after any run of assignments the next name was given out before if and only if it was left unregistered then, or no candidate is free and the fallback is reserved |
| AppNames.NamesApartIff | adapter/workspace_aggregator.c:225-328 | over any run the names given out are pairwise different if and only if no assignment met that condition |
| AppNames.ApartWhileReserved | adapter/workspace_aggregator.c:225-328 | they are while every assignment finds a free candidate and room in the registry, and for the first 99 |
| AppNames.NoneLooseIff | adapter/workspace_aggregator.c:225-231 | every name given out is registered if and only if every assignment found a free candidate and room |
| AppNames.LooseNameComesBack | adapter/workspace_aggregator.c:327 | any slug asked for 100 times gets its fallback, which an app of that name then gets again at its first candidate |
| AppNames.EnteredNameComesBack | adapter/workspace_aggregator.c:327 | where the fallback is some app's registered name, the 100th request for the slug repeats it |
| AppNames.RegistryStaysDistinct | adapter/workspace_aggregator.c:225-231 | the registry never holds a name twice |
| AppNames.AssignedIsPrefixText | adapter/workspace_aggregator.c:311-328 | assigned names contain no underscore and fit their 40 bytes |
| AppNames.FindSeparator | adapter/workspace_aggregator.c:969-978 | the first double underscore |
| AppNames.ListedNameRoutes | adapter/workspace_aggregator.c:932-978 | a listed name splits back into its prefix and tool if and only if it was not cut at 127 bytes and is not the built-in's |
| AppNames.ListedNamesDiffer | adapter/workspace_aggregator.c:932-935 | uncut names of different prefixes or tools differ |
| Rpc.ReplacedIsFound | adapter/workspace_aggregator.c:565-567 | a replaced id is what a lookup then finds |
| Rpc.RelayedMessage | adapter/workspace_aggregator.c:564-568 | a relayed response carries the agent's id and is otherwise the backend's |
| Rpc.RequestReads | adapter/workspace_aggregator.c:1009-1020 | a `tools/call` of JSON-RPC 2.0 in which the backend finds its own tool's name, the agent's arguments if there are any, and the local id |
| Rpc.ListRequestReads | adapter/workspace_aggregator.c:434-459 | a `tools/list` of JSON-RPC 2.0 under the local id, without parameters |
| Rpc.ErrorReads | adapter/workspace_aggregator.c:152-167 | an error reply of JSON-RPC 2.0 carries the id it answers, its code and its text |
| Rpc.LookupIff | external/cjson/cJSON.c:1898-1938 | a lookup finds a value if and only if it is that of the first member with the key |
| Rpc.NameIff | adapter/workspace_aggregator.c:927-930 | a tool has a name if and only if its first member `name` is a string |
| Rpc.ExposedIff | adapter/workspace_aggregator.c:380-398 | in terms of the members of the tool: it is exposed if diagnostics are; else if its `_meta` has a string `displayxr/group` other than `diagnostic`, or has none and the name is `capture_frame`; and not otherwise |
| AggregatorState.IdsAreDistinct | adapter/workspace_aggregator.c:334-359 | used entries have different local ids |
| AggregatorState.SentOnce | adapter/workspace_aggregator.c:334-347 | no local id is written to any backend twice; each was issued for the connection it went to |
| AggregatorState.SentIsPlaced | adapter/workspace_aggregator.c:532-553 | a response from a connection that a request with its id was written to is under an id issued for that connection |
| AggregatorState.AnsweredOnce | adapter/workspace_aggregator.c:532-575 | no two answers are to the same call, and each carries its call's id |
| AggregatorState.Conservation | adapter/workspace_aggregator.c:333-430 | calls received = in flight + about to be answered + answered + lost |
| AggregatorState.CallForwarded | adapter/workspace_aggregator.c:1000-1037 | entering a call keeps the bookkeeping of all calls |
| AggregatorState.CallReleased | adapter/workspace_aggregator.c:361-369 | a call leaving the table keeps it |
| AggregatorState.AnswerWritten | adapter/workspace_aggregator.c:121-135 | a written answer is never written again |
| AggregatorState.OneSlotEach | adapter/workspace_aggregator.c:697-760 | a process has at most one live slot, and the shell at most one |
| AggregatorState.OneHomeEach | adapter/workspace_aggregator.c:717-725 | live slots have different connections, also after slots are reused |
| AggregatorState.SwapRemove | adapter/workspace_aggregator.c:633-638 | overwriting with the last entry removes exactly one |
| AggregatorState.SetupStarted | adapter/workspace_aggregator.c:820-829 | a new setup keeps the connecting list without repeats and equal to the outstanding setups |
| AggregatorState.SetupEnded | adapter/workspace_aggregator.c:626-641 | so does the end of one |
| AggregatorState.LiveNamesDiffer | adapter/workspace_aggregator.c:743 | while the names given out differ, live apps have different prefixes |
| AggregatorState.RegistryKept | adapter/workspace_aggregator.c:311-328 | each assignment, whatever it finds, leaves registry and history as the run of requested slugs determines them |
| Aggregator.Aggregator.FindBackend | adapter/workspace_aggregator.c:983-991 | the first live slot with the prefix |
| Aggregator.Aggregator.FindEntry | adapter/workspace_aggregator.c:351-359 | the used entry with the id |
| Aggregator.Aggregator.Judge | adapter/workspace_aggregator.c:949-1007 | what a call comes to: built-in, each error case in the code's order, or slot, tool and entry; in its own terms, `Aggregator.VerdictIs` |
| Aggregator.SplitsIff | adapter/workspace_aggregator.c:969-982 | a name has one split at most into prefix and tool: at its first two underscores, with both parts not empty |
| Aggregator.VerdictIs | adapter/workspace_aggregator.c:949-1007 | -32602 if and only if there is no string name; -32601 "expected <prefix>__<tool>" if and only if the name does not split; -32601 "no such app prefix" if and only if it splits and no live slot has the prefix; -32000 "too many calls in flight" if and only if one has and no entry is free; else it is forwarded |
| Aggregator.Aggregator.EnterCall | adapter/workspace_aggregator.c:334-347 | a call enters under the next local id, and no other entry changes |
| Aggregator.Aggregator.Release | adapter/workspace_aggregator.c:363-369 | only the entry is freed, and its call moves on |
| Aggregator.Aggregator.Forward | adapter/workspace_aggregator.c:1000-1037 | the request for the tool goes to the slot's connection and the call waits; a failed write refuses it instead |
| Aggregator.Aggregator.CallTool | adapter/workspace_aggregator.c:949-1039 | the whole new state; and what the agent is told: each error, by code and text, if and only if its condition holds, the listing if and only if the name is the built-in's, and else the call waits for the app whose prefix the name has (`Aggregator.Answered`) |
| Aggregator.Aggregator.Respond | adapter/workspace_aggregator.c:1041-1098 | other requests are answered once, with the latch set |
| Aggregator.Aggregator.Emit | adapter/workspace_aggregator.c:121-135 | an answer due is written once, and the latch was set before |
| Aggregator.Aggregator.WriteOne | adapter/workspace_aggregator.c:121-210 | any one write to the agent: exactly the answer due, the notification or the reply is appended |
| Aggregator.Aggregator.NotifyListChanged | adapter/workspace_aggregator.c:200-210 | silent before initialization; afterwards the latch was set before |
| Aggregator.Aggregator.RefreshTools | adapter/workspace_aggregator.c:434-459 | a tools request goes out under a new id, or nothing stays behind |
| Aggregator.Aggregator.CallInTable | adapter/workspace_aggregator.c:334-347 | a call in the table is the agent's call, and the request with its tool and arguments was written on the slot's present connection under that id |
| Aggregator.Aggregator.Receive | adapter/workspace_aggregator.c:532-575 | the relayed response carries the id of the very call whose request was written on this connection under that local id; what was heard is recorded; a call is lost if and only if its entry is another slot's, and then the response is under an id issued for another connection |
| Aggregator.Aggregator.CrossedIsMisplaced | adapter/workspace_aggregator.c:532-553 | a response that frees another slot's entry is under an id issued for another connection, also after slots are reused |
| Aggregator.Aggregator.HonestAnswer | adapter/workspace_aggregator.c:532-553 | a response from a connection that a request with its id was written to never frees another slot's entry |
| Aggregator.Aggregator.NobodyLeftHanging | adapter/workspace_aggregator.c:403-430 | with no backend left, every call was answered, is about to be, or was lost to a crossed answer |
| Aggregator.Aggregator.ListSlot | adapter/workspace_aggregator.c:916-944 | the exposed, named tools of a slot in order, under their prefixed names |
| Aggregator.Aggregator.ListTools | adapter/workspace_aggregator.c:898-948 | the merged list, in order and without gaps: the built-in's, then for every live slot in slot order, and in the order of its tools, the name of each that is shown (`Aggregator.IsListing`) |
| Aggregator.MergedIff | adapter/workspace_aggregator.c:380-398 | a name is in the merged list if and only if some live slot has an exposed tool of that name |
| Aggregator.MergedIsListing | adapter/workspace_aggregator.c:898-948 | in terms of the tools alone: each shown tool of a live slot has its one place in the list, before the places of later ones, and nothing else is listed |
| Aggregator.Aggregator.PrefixesOwned | adapter/workspace_aggregator.c:983-991 | while no name came back, a live slot's prefix leads to that slot if and only if it is not the shell's prefix held by an earlier slot |
| Aggregator.Aggregator.ShellCollides | adapter/workspace_aggregator.c:730-745 | an app asking for the shell's prefix gets it while it is not reserved; then the later slot does not own it |
| Aggregator.Aggregator.PickOwner | adapter/workspace_aggregator.c:983-991 | the search by a slot's prefix ends at this slot if and only if no earlier live slot has it |
| Aggregator.Aggregator.ListedToolRoutes | adapter/workspace_aggregator.c:949-1000 | a call by a listed name goes to the backend that listed it, under its own name, if and only if the prefix is its own, the name was not cut and is not the built-in's, and an entry is free |
| Aggregator.Aggregator.FailSlot | adapter/workspace_aggregator.c:404-419 | exactly the slot's entries are freed and its calls told to have failed, in table order, whatever other threads write between two failures; what they write are answers that were due |
| Aggregator.Aggregator.FailNext | adapter/workspace_aggregator.c:404-419 | the next entry of a teardown is freed and its failure told if and only if it is the slot's |
| Aggregator.Aggregator.ReaderGone | adapter/workspace_aggregator.c:580-585 | a dead backend's calls are failed so and its slot vacated, all else unchanged |
| Aggregator.Aggregator.Vacate | adapter/workspace_aggregator.c:420-429 | the slot and only it is free again |
| Aggregator.Aggregator.ApplyTools | adapter/workspace_aggregator.c:466-494 | the new tools, none if the value is no array, and the next prefix if and only if a non-shell backend's app id differs |
| Aggregator.Aggregator.Readdress | adapter/workspace_aggregator.c:484-491 | the app gets the next name for its new id |
| Aggregator.Aggregator.PrefixInUse | adapter/workspace_aggregator.c:214-223 | true if and only if the name is reserved |
| Aggregator.Aggregator.AssignPrefix | adapter/workspace_aggregator.c:306-328 | the bare name if unused, else that with the least unused number from 2 to 99, else the one with an x; and what the registry becomes |
| Aggregator.Aggregator.NextNameRepeats | adapter/workspace_aggregator.c:306-328 | in any state the next name was given out before if and only if the condition for reuse holds |
| Aggregator.Aggregator.BackendKnown | adapter/workspace_aggregator.c:765-786 | true if and only if the process has a live slot or an outstanding setup |
| Aggregator.Aggregator.Consider | adapter/workspace_aggregator.c:820-829 | a setup starts if and only if the process is unknown and fewer than 32 are under way |
| Aggregator.Aggregator.PollApps | adapter/workspace_aggregator.c:817-829 | afterwards every listed process is live, connecting, or there was no room; new setups are for unknown ones, one each |
| Aggregator.Aggregator.Poll | adapter/workspace_aggregator.c:806-841 | the same, and a shell setup starts if and only if there is no shell and none under way |
| Aggregator.Aggregator.EndHandshake | adapter/workspace_aggregator.c:643-695 | a process that was handshaking has no slot yet |
| Aggregator.Aggregator.ConnectingRemove | adapter/workspace_aggregator.c:626-641 | exactly this setup's entry leaves the list |
| Aggregator.Aggregator.DesiredName | adapter/workspace_aggregator.c:730-742 | the name is made from the app id; from the executable's name only where there is no app id, and is "app" where there is neither; it is valid |
| Aggregator.Aggregator.AppArrives | adapter/workspace_aggregator.c:717-753 | the app sits in the slot under the next name, or leaves it as it was if no reader starts |
| Aggregator.Aggregator.ShellArrives | adapter/workspace_aggregator.c:717-753 | the same for the shell under its fixed prefix |
| Aggregator.Aggregator.Register | adapter/workspace_aggregator.c:697-760 | the first vacant slot gets the backend with its name, the app id before the executable's, or nothing changes if there is none |
| AggregatorRuns.Step | adapter/workspace_aggregator.c:333-1039 | every step keeps all invariants; the calls asked and the responses heard grow by those of the event; only a response under an id issued for another connection loses a call |
| AggregatorRuns.Run | adapter/workspace_aggregator.c:333-1039 | over any run the calls asked are those of its events and are conserved, and none is lost if every response heard came from a connection that a request with its id was written to |
| AggregatorRuns.RunAnswersOnce | adapter/workspace_aggregator.c:532-575 | over any run no call is answered twice, and answers carry their calls' ids |
| AggregatorRuns.RunSendsOnce | adapter/workspace_aggregator.c:334-347 | over any run no two requests to backends share a local id |
| AggregatorRuns.RunNamesApart | adapter/workspace_aggregator.c:225-328 | over any run of the aggregator app prefixes are pairwise different if and only if no assignment met the condition for reuse, and then live apps differ |
| AggregatorRuns.AnswerTo | adapter/workspace_aggregator.c:532-553 | an in-flight call is lost by an answer to its id if and only if another backend answered |
| AggregatorRuns.CallIsLost | adapter/workspace_aggregator.c:532-553 | a run from the start that loses its one call: two apps, a call of the first one's tool, a response by the second |
| AggregatorRuns.ShellBesideShell | adapter/workspace_aggregator.c:730-745 | a run from the start to an app named like the shell beside the shell, which it is not reached by |
| ServerWire.Wire.Reply | src/mcp_server.c:615-622 | a whole frame is appended if and only if the connection takes it; else it is dead and nothing follows |
| ServerWire.Wire.Notify | src/mcp_server.c:222-242 | the same for a notification |
| ServerWire.Wire.PeerReceives | src/mcp_server.c:132-148 | in every state the peer receives exactly the bodies whose frames are whole, up to one it refuses |
| ServerWire.Handle | src/mcp_server.c:595-625 | one reply, notification or abort, with exactly the outcome the sends have for it; a failed one ends the connection |
| ServerWire.Drive | src/mcp_server.c:595-625 | over any interleaving the whole frames are those of the completed writes, which are exactly those the sends let through, and none follows a failure |
| ServerWire.LastingDrive | src/mcp_server.c:595-625 | over a connection that lasts, unless it is aborted, every reply and notification completes |
| ServerWire.Converse | src/mcp_server.c:595-625 | any interleaving, any partial sends, any splitting at the peer: it receives the completed bodies in order, and completed are exactly those the sends let through |
| ServerSlots.Server.Accept | src/mcp_server.c:653-690 | the first empty slot is taken, or the connection is left to be closed |
| ServerSlots.Server.Unwind | src/mcp_server.c:627-648 | the slot is cleared, the count drops, drained is signalled exactly at zero |
| ServerSlots.Server.Close | src/mcp_server.c:648-650 | a connection is closed only after its slot is cleared, and was not closed before |
| ServerSlots.Server.Broadcast | src/mcp_server.c:222-242 | written to are exactly the initialized, unlocked slots, and none is closed |
| ServerSlots.Server.AbortAll | src/mcp_server.c:814-824 | exactly the live connections are aborted, none of them closed |
| ServerSlots.Server.FinishStop | src/mcp_server.c:825-831 | stop returns if and only if no slot is taken |
| ServerSlots.TakenChanged | src/mcp_server.c:627-689 | how one slot's change changes the count of taken ones |
| ServerSlots.EmptyIffRoom | src/mcp_server.c:662-673 | the search finds an empty slot if and only if fewer than eight are taken |
| ServerSlots.ClosedOnce | src/mcp_server.c:648-650 | no connection is closed twice |
| ServerSlots.Step | src/mcp_server.c:653-831 | each event has exactly the effect stated for it on slots, count, phase and the fates of connections |
| ServerSlots.Run | src/mcp_server.c:653-831 | over any run the state is that of its events, the count is that of the taken slots, no connection is closed twice, and after stop every accepted one was closed |
| LogRing.Ring.Append | src/mcp_log_ring.c:57-78 | the ring agrees with the unbounded log, with one more entry cut to 511 bytes; stopped, it stays |
| LogRing.Ring.Read | src/mcp_log_ring.c:80-106 | since + dropped + count is the next cursor modulo 2^64; count is as many as there are behind the cursor and the lost, at most the room; entry by entry they are the log's from there on; dropped is the number of entries overwritten behind the cursor if and only if the cursor is below 2^64-1, where it counts one that never was |
| LogRing.DeliveredMore | src/mcp_log_ring.c:80-106 | one more poll extends what was delivered, in order |
| LogRing.OverwrittenAre | src/mcp_log_ring.c:80-106 | the entries told as lost are just those behind the cursor whose slot went to a later one |
| LogRing.PollOnce | src/mcp_log_ring.c:80-106 | one poll delivers the entries behind the cursor and the lost, as many as there are or the limit; the lost are exactly the entries overwritten by then |
| LogRing.HandleOne | src/mcp_log_ring.c:57-106 | an append, a poll or a switch has exactly its effect on log, reader and count of lost entries |
| LogRing.Follow | src/mcp_log_ring.c:57-106 | over any run of appends and polls the outcome is that of its events: every entry up to the cursor was delivered once, in order, or counted as dropped |

## Left out

- JsonParser.Parser.ParseNumber: doubles are not modelled; a number that is not a 32-bit integer is kept as the text strtod read, also one so near an integer that its double is that integer.
- JsonPrinter.PrintBuffer.PrintNumber: models 32-bit integers only; the `%1.15g` text of other numbers is library behaviour.
- JsonParser.Parser.ParseArray: items come out as a sequence; their linking into heap nodes is proved apart, in ChildList.BuildChildren, and so is ParseObject's.
- JsonGrammar.NumberOfIff: of the decimal value, see JsonParser.Parser.ParseNumber.
- JsonAccepted.AcceptedIff: a number that is no 32-bit integer has its text for a value; infinities and hexadecimal numbers cannot be read, as the bytes copied for strtod hold neither.
- JsonStandard.StandardTextsAreTaken: a lone surrogate, which the RFC's grammar has, is refused (`Utf.EscapeDecodes`); what is taken beyond the RFC, leading zeros, raw control bytes, other bytes for white space, is in JsonAccepted.AcceptedIff.
- JsonRoundTrip.ParseUndoesPrint: strings contain no NUL and numbers are 32-bit integers; reference and raw nodes have no tree value here.
- ChildList.Replace: the source also deletes the replaced item, which is only unlinked here; where an item is taken that is the parent or already a child, only that the links fail then is stated, not what they become; Append and Insert likewise.
- StdioReader.Reader.ReadLength: the memory behind the buffered bytes is one fixed sequence for a reader's life, and ends somewhere; in the source it changes as the buffer is moved and grows, and has no known end.
- StdioReader.ReadAll: of a stream whose headers do not fit it states the first message only if it starts with a length line, as a function of the first read; later reads are not followed further.
- Pump.PumpDown: the framing published while it waits is a parameter; the wait itself is not timed.
- Aggregator.Aggregator.ListTools: the merged entries' other members, `_meta` among them, are copied by the code and are not part of the model, which has their names.
- Aggregator.Aggregator.CallTool: the contents of the built-in's reply are a parameter; what the agent is told is stated for one that is no error reply, as the code's never is; calls without an id are ignored by the code and are no events here.
- Aggregator.Aggregator.FailSlot: other threads' writes during a teardown are a parameter, any number before each entry.
- Aggregator.Aggregator.Receive: local ids are unbounded; a response whose id is a number but no 32-bit integer may be taken for any local id, as the conversion of doubles to 64 bits is not modelled.
- Aggregator.Aggregator.ApplyTools: the model follows the code in giving an app id longer than 32 bytes a new prefix at every report, since the stored id is cut.
- Aggregator.Aggregator.Poll: the directory scan and the limit of 64 listed processes are a parameter; a setup thread that cannot be started is a failed handshake.
- AggregatorRuns.Run: apart from calls and responses it does not state the outcome as a function of the events, which the methods of Aggregator state one by one; failed writes to stdout count as written, since the code ignores them; the end of stdin and process exit are not modelled.
- ServerSlots.Run: that aborted threads wake and unwind, and so that stop returns at all, is up to the operating system; the tool table and allow-list are not modelled.
- LogRing.Ring.Append: the clock is a parameter and sequence numbers do not reach 2^64.
- Transport.Sink.WriteBounded: wall-clock bounds are not modelled, only that lateness aborts the connection; the Windows half has the same contract.
- cJSON_PrintPreallocated, cJSON_Minify, cJSON_Compare, cJSON_Duplicate, hooks and locales: not used on the paths modelled here.
- Tool handlers, capture, allow-list, audit and command-line code: short members with easy properties.
