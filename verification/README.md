# Embedded Network Monitor: models and proofs

This Dafny project models the parts of the network monitor whose behaviour is hardest to see from the code and proves
what they promise. `dafny verify dfyconfig.toml` checks it.

## What is modelled

**JSON** (`lib/cJSON/cJSON.c`). Trees are the datatype `Json`; their two printed layouts are the recursive functions
of `JsonText`, and what the parser does is the function `ParseBuffer` of `JsonGrammar`, a case-by-case account of the C
code's branches. `JsonTokens` says what language that is: a buffer parses to a tree exactly when it reads as the
tree's tokens. `JsonNumerals`, `JsonStrings` and `JsonLexemes` spell the tokens as RFC 8259, sections 2 to 7, allows,
and `JsonRoundTrip` shows that printed text is one such spelling. `JsonHeap` is the memory the C code works in: nodes
and string blocks by address, an allocator that may refuse any request, and what it means for a node to own, and to
read as, a tree. `JsonParser`, `JsonPrinter`, `JsonMinify` and `JsonLists` are the imperative code: offsets and depths
that advance, a buffer that grows in either of two ways, a scanner that rewrites its own array, child lists relinked
through `next`, `prev` and `child`. `JsonMinified` is what minified text still means; `JsonSession` is any sequence of
list edits, `JsonEdits` what it makes of the values, and `JsonDocument` chains parsing, editing and printing. Reading a
node or block that is not allocated, freeing one twice and indexing outside a buffer are all verification errors, so
their absence is part of every method. The one read outside a block that the code can make, when the printer grows an
empty buffer by copying, is counted instead.

**The satellite link** (`satellite/`). `SatCrc` takes the CRC apart bit by bit, and `SatBurst` finds the longest burst
it notices wherever it strikes; `SatBits` reads bytes as numbers and as bits; `SatProtocol` has the frame layout and
the frame builder; `SatReceiver` is the receiver's automaton as a function and what it makes of any stream; `SatData`
and `SatFirmware` are the data model and the receiver task in place, `SatConnection` what becomes of the connection
over any run of it; `SatEncoder` goes from the status document to a frame, and `SatLink` from a session of messages to
what the display shows, whose severity `SatSeverity` compares with the host's.

**Collector and alerts** (`src/net/net_collector.c`, `src/core/alerts.c`). `Collector` describes fast and slow ticks as
functions and proves what every interleaving of them keeps; `CollectorTicks` is the code over its shared arrays.
`InfraProbe` is the round robin of the medium tick. `Alerts` has histories of observations and what they push,
`AlertSeries` any series of checks and clears, and `AlertEngine` the engine in place, with the history of everything
that has happened to it as a ghost field. `Ring` serves the satellite history, the alert log and the collector
histories; `AppConf` holds the limits they share.

**Configuration store** (`src/core/config.c`). `Config` has the table, the line parser and the save format as
functions; `ConfigStore` is the code in place, with lines trimmed and split inside their buffer.

**Packets** (`src/net/net_ping.c`, `src/net/net_discovery.c`, `src/net/net_dns.c`). `PacketChecksum` is the Internet
checksum of RFC 1071, section 1, in both of its forms and the echo request of RFC 792; `DnsName` is the QNAME encoding
of RFC 1035, sections 3.1 and 4.1.2, with an independent decoder.

## Conventions

- Bytes are integers from 0 to 255; inside the CRC they are bit vectors. 16-, 32- and 64-bit wrap-around is written out.
- `double` and `float` values are exact reals. JSON numbers are printed and round-tripped when they are 32-bit
  integers; the parser reads any number a `strtod` without rounding would read.
- Allocation, clocks, the network and the file system are parameters: which requests the allocator refuses, the time
  at each byte or tick, the sample a fast tick has parsed, the interfaces a slow tick has enumerated, the outcome of a
  ping, the contents of the configuration file.
- Many bodies start with a `hide` statement. It keeps the named definitions out of a proof that does not need them.

## Where code and documentation disagree

The models follow the code.

- The packed snapshot and interface structures have 22 bytes each, not the 18 and 20 of the comments
  (`satellite/protocol/sat_protocol.h:75-79`, `satellite/protocol/sat_protocol.h:118-127`); the largest snapshot frame
  has 208 bytes.
- Host severities go from 0, information, to 2, critical (`src/core/alerts.h:28-32`), and are sent unchanged into a
  scale from 0, none, to 3, critical (`satellite/protocol/sat_protocol.h:50-55`). `SatSeverity.SeverityMeant`: what is
  shown has the meaning it had on the host exactly when no alert is active; an active one is shown one grade lower.
  `SatSeverity.CriticalShownAsWarning` is a document for which that matters.
- The documentation promises that an alert takes three checks in a row to be raised and three good ones to be dismissed
  (`docs/user_manual.md:187`). Latency alerts are raised at once (`src/core/alerts.c:149-158`):
  `AlertSeries.LatencyAlerts` counts them, and `AlertSeries.LatencyRule` says exactly when the documented rule still
  holds. No check ever dismisses an alert: `AlertSeries.OnlyClearDismisses`, with
  `AlertSeries.GoodChecksDismissNothing` as the case in point.
- The active count is meant to be the number of active alerts. A check counts its own pushes twice
  (`src/core/alerts.c:54`, `src/core/alerts.c:172-175`): `AlertEngine.Engine.Check` says, from the state before the
  check, exactly when it is right, and `AlertEngine.SlowGatewayReport` is a run in which it is not.
- Growing an empty print buffer by allocate and copy takes one byte out of it (`lib/cJSON/cJSON.c:561`):
  `JsonPrinter.PrintBuffered` says exactly when that happens, and that the text is right all the same.
- `CONFIG_MAX_ENTRIES` is 64, not the 32 of the developer manual.
- Minifying treats a backslash in front of a quote as an escape even when that backslash is itself escaped
  (`lib/cJSON/cJSON.c:2911`): `JsonMinified.MinifiedParses` says exactly which documents that changes, and
  `JsonMinified.MinifyCanAlter` is one; `JsonMinify.MinifyIsUnformatted` says which ones come out unformatted.
- Memory use in percent is wrong from 42949673 kB of available memory on: `SatEncoder.MemoryPercentExact`. Link speeds
  above 4294 Mb/s wrap: `SatData.LinkScaleExact`.
- Every byte up to 32 counts as white space in JSON text, and bad hexadecimal digits in an escape count as 0.

## Model

| member | source | states |
|---|---|---|
| JsonText.TextNulFree | lib/cJSON/cJSON.c:949-1068 | printed text of a tree with NUL-free strings contains no NUL byte, so the terminator behind it is the first one |
| JsonRoundTrip.DecimalOfNatText | lib/cJSON/cJSON.c:591-658 | the decimal digits written for a number have that number as their value |
| JsonRoundTrip.StrToDOfIntText | lib/cJSON/cJSON.c:307-408 | reading the digits of any 32-bit integer, with its sign, gives the integer back and uses up exactly its text |
| JsonRoundTrip.NumberBack | lib/cJSON/cJSON.c:307-408 | a printed 32-bit number is parsed back wherever it stands, as long as no further number byte follows it |
| JsonRoundTrip.EscapedRunsToQuote | lib/cJSON/cJSON.c:819-870 | the first pass over an escaped string finds the closing quote, never a quote inside |
| JsonRoundTrip.UnescapeOfEscape | lib/cJSON/cJSON.c:870-946 | decoding undoes escaping on every NUL-free byte string |
| JsonRoundTrip.StringBack | lib/cJSON/cJSON.c:819-946 | a quoted string anywhere in a buffer parses to its bytes and ends just behind its closing quote |
| JsonRoundTrip.ValueBack | lib/cJSON/cJSON.c:1363-1415 | the text of a tree, in either layout, at any position and any depth, parses to the tree and ends where the text does, if its nesting still fits the limit of 1000, and is refused otherwise |
| JsonRoundTrip.RoundTrip | lib/cJSON/cJSON.c:1142-1219 | for every tree of null, booleans, 32-bit integers, NUL-free strings, arrays and objects, parsing its printed text, formatted or not, with or without the check for a trailing NUL, gives the same tree if its nesting is at most 1000, and fails otherwise |
| JsonRoundTrip.PrintingIsInjective | lib/cJSON/cJSON.c:1302-1310 | two such trees, however deep, that print to the same text, in whichever layouts, are equal |
| JsonRoundTrip.LaysTree | lib/cJSON/cJSON.c:1418-1490 | printed text, in either layout, is one of the texts that spell the tree: its lexemes have the tree's tokens and nothing else between them than spaces, tabs and newlines |
| JsonTokens.ValueExactly | lib/cJSON/cJSON.c:1363-1415 | for any buffer, position, depth and tree: parse_value gives the tree if and only if the tree's tokens are read there one after the other and the depth leaves room for its nesting; it then ends where they do |
| JsonTokens.ArrayExactly | lib/cJSON/cJSON.c:1492-1587 | the same for parse_array, with its depth count and its steps back and forth |
| JsonTokens.ItemsExactly | lib/cJSON/cJSON.c:1527-1570 | the same for its item loop, commas and closing bracket included |
| JsonTokens.ObjectExactly | lib/cJSON/cJSON.c:1657-1772 | the same for parse_object |
| JsonTokens.MembersExactly | lib/cJSON/cJSON.c:1692-1755 | the same for its member loop, key by key |
| JsonTokens.TokensFix | lib/cJSON/cJSON.c:1492-1772 | the tokens of a tree tell which tree it is and where it ends, whatever follows |
| JsonTokens.ValueStands | lib/cJSON/cJSON.c:1363-1415 | where the tokens of a tree stand, parse_value gives that tree or, for its depth, nothing at all |
| JsonTokens.ParsesExactly | lib/cJSON/cJSON.c:1142-1219 | cJSON_Parse accepts a buffer as a given tree if and only if the buffer spells it, an optional byte order mark in front and only white space up to a final NUL behind, and its nesting is at most 1000 |
| JsonNumerals.StrToDOfNumeral | lib/cJSON/cJSON.c:307-408 | exact strtod gives any number of RFC 8259, fraction and exponent included, its decimal value and takes all of it |
| JsonLexemes.NumeralReads | lib/cJSON/cJSON.c:307-408 | parse_number reads any such number wherever no further number byte follows |
| JsonLexemes.TextReads | lib/cJSON/cJSON.c:1363-1772 | any run of white space, marks, keywords, numbers and strings is read as their tokens, with nothing but white space left behind them |
| JsonLexemes.TextParses | lib/cJSON/cJSON.c:1142-1219 | every RFC 8259 text parses to the tree it spells, whatever white space stands between its tokens and whatever digits and escapes spell them, if its nesting is at most 1000, and to nothing otherwise |
| JsonGrammar.ScanBlank | lib/cJSON/cJSON.c:1085-1108 | skipping stops at the first byte above 32 or at the end; everything in between is white space |
| JsonGrammar.Hex4Reads | lib/cJSON/cJSON.c:661-689 | the four hex digits can be read off the value again, most significant first; with any bad digit among them it is 0 |
| JsonGrammar.ParseArray | lib/cJSON/cJSON.c:1492-1587 | a successful parse moves forward and stays inside the buffer, and a failing one reports a position not behind its end, although the code steps the offset back in front of each item |
| JsonGrammar.ParseMembers | lib/cJSON/cJSON.c:1692-1755 | the same for the members of an object |
| JsonStrings.LiteralFits | lib/cJSON/cJSON.c:698-816 | a \\u sequence, even one that swallows bytes the first pass took for other escapes, never yields more bytes than the first pass counted for the bytes it uses up |
| JsonStrings.DecodedFits | lib/cJSON/cJSON.c:819-946 | whatever lies between the quotes, malformed escapes included, decoding never writes more than the block sized by the first pass holds |
| JsonStrings.Utf8Back | lib/cJSON/cJSON.c:757-806 | an independent UTF-8 decoder reads back the code point from the bytes written for it, and how many there are |
| JsonStrings.PieceDecodes | lib/cJSON/cJSON.c:870-946 | each plain byte, short escape, valid \\uXXXX and surrogate pair decodes to the bytes it stands for |
| JsonStrings.PiecesDecode | lib/cJSON/cJSON.c:870-946 | any sequence of such pieces decodes to the concatenation of their meanings |
| JsonStrings.LiteralDecodes | lib/cJSON/cJSON.c:819-946 | a string literal made of such pieces parses to the concatenated UTF-8 |
| JsonHeap.OwnsKept | lib/cJSON/cJSON.c:253-276 | a tree still owns its nodes and blocks after any change that leaves the bodies of those alone |
| JsonHeap.ReadsKept | lib/cJSON/cJSON.c:253-276 | and it still reads as the same JSON tree |
| JsonHeap.OwnedIsLive | lib/cJSON/cJSON.c:253-276 | everything a tree owns is allocated |
| JsonHeap.Heap.NewItem | lib/cJSON/cJSON.c:241-250 | an allocation either is refused and changes nothing, or adds one blank node at an unused address |
| JsonHeap.Heap.Delete | lib/cJSON/cJSON.c:253-276 | deletion frees exactly what the item, its younger siblings and everything below own, each block once, and nothing else |
| JsonHeap.Heap.DeleteBelow | lib/cJSON/cJSON.c:253-276 | one round of it: exactly the footprint of one item goes |
| JsonBuild.Restored | lib/cJSON/cJSON.c:1142-1219 | taking away exactly what a parse added gives back the heap it started with |
| JsonBuild.AttachBuilds | lib/cJSON/cJSON.c:1527-1552 | hanging a new item behind the last one keeps the unfinished child list owned, chained and apart from the older heap |
| JsonBuild.GrowLast | lib/cJSON/cJSON.c:1553-1562 | filling the last item leaves its elder siblings as they were |
| JsonBuild.CloseFills | lib/cJSON/cJSON.c:1572-1583 | closing the list (head's prev is the last item) gives the item a child list that reads as the parsed values |
| JsonParser.Parser.SkipWhitespace | lib/cJSON/cJSON.c:1085-1108 | the offset ends where the specification says, one short of the end when only white space is left |
| JsonParser.Parser.ParseNumber | lib/cJSON/cJSON.c:307-408 | the item becomes the number the specification reads, or nothing changes; a refused scratch block makes it fail without leaking |
| JsonParser.Parser.ParseHex4 | lib/cJSON/cJSON.c:661-689 | the loop over four digits computes the specification, including 0 for bad digits |
| JsonParser.Parser.Utf16LiteralToUtf8 | lib/cJSON/cJSON.c:698-816 | the bytes written and the input consumed are those of the specification, with surrogate pairs combined |
| JsonParser.Parser.EncodeUtf8 | lib/cJSON/cJSON.c:757-806 | the code point is written as its UTF-8 bytes and nothing beyond them is touched |
| JsonParser.Parser.Decode | lib/cJSON/cJSON.c:883-930 | the second pass writes the decoded string inside the given block, and fails exactly where the specification does |
| JsonParser.Parser.MeasureString | lib/cJSON/cJSON.c:829-868 | the first pass finds the closing quote, or that there is none, and a size that decoding cannot exceed |
| JsonParser.Parser.ParseString | lib/cJSON/cJSON.c:819-946 | the item receives a block holding exactly the decoded string and its NUL; on any failure the heap is as before |
| JsonParser.Parser.ParseValue | lib/cJSON/cJSON.c:1363-1415 | the item is filled with the tree the specification gives, or everything allocated below it is released again; the only other reason to fail is a refused allocation |
| JsonParser.Parser.ParseArray | lib/cJSON/cJSON.c:1492-1587 | the same for arrays: every node of a failed parse is freed exactly once |
| JsonParser.Parser.ParseItems | lib/cJSON/cJSON.c:1527-1570 | the loop over items keeps a well formed, owned child list that reads as the values so far |
| JsonParser.Parser.ParseObject | lib/cJSON/cJSON.c:1657-1772 | the same for objects, with the key block moved from value to name |
| JsonParser.Parser.ParseMembers | lib/cJSON/cJSON.c:1692-1755 | the loop over members, likewise |
| JsonParser.ParseWithLengthOpts | lib/cJSON/cJSON.c:1142-1219 | with an allocator that may refuse any request: parsing succeeds exactly when the text is accepted and nothing was refused; then the heap has grown by exactly the blocks of a tree that reads as the parsed value, and otherwise it is unchanged; the reported position is the specified one |
| JsonParser.DeleteRoot | lib/cJSON/cJSON.c:253-276 | deleting a parsed tree frees exactly its blocks |
| JsonParser.ParseAndDelete | lib/cJSON/cJSON.c:1142-1219 | parsing any bytes and deleting the result leaves the heap as it was, whatever was refused |
| JsonPrinter.PrintBuffer.Ensure | lib/cJSON/cJSON.c:485-568 | it succeeds exactly when the space is there or can be had; the bytes written so far survive either way of growing, nothing is lost or leaked when it fails, and no byte is read from outside a block but the one due when an empty block is grown by copying |
| JsonPrinter.PrintBuffer.Grow | lib/cJSON/cJSON.c:529-568 | realloc, or allocate and copy, carry the same bytes over |
| JsonPrinter.PrintBuffer.UpdateOffset | lib/cJSON/cJSON.c:571-581 | the offset moves to the terminator of what was written |
| JsonPrinter.PrintBuffer.PrintStringPtr | lib/cJSON/cJSON.c:949-1068 | exactly the quoted, escaped string is appended: the precomputed length is exact and the path without escapes gives the same bytes |
| JsonPrinter.PrintBuffer.CountEscapes | lib/cJSON/cJSON.c:967-1000 | the counted length is the length of the escaped string |
| JsonPrinter.PrintBuffer.CopyEscaped | lib/cJSON/cJSON.c:1024-1064 | the copying loop writes the escaped string inside the granted space |
| JsonPrinter.PrintBuffer.PrintNumber | lib/cJSON/cJSON.c:591-658 | a 32-bit number is appended as its decimal text |
| JsonPrinter.PrintBuffer.PrintValue | lib/cJSON/cJSON.c:1418-1489 | a tree in memory is appended as the recursive specification string; it fails exactly when the nesting, the length or an allocation does not allow it |
| JsonPrinter.PrintBuffer.PrintArray | lib/cJSON/cJSON.c:1590-1654 | the same for arrays |
| JsonPrinter.PrintBuffer.PrintObject | lib/cJSON/cJSON.c:1775-1891 | the same for objects, in both layouts |
| JsonPrinter.PrintBuffer.PrintMembers | lib/cJSON/cJSON.c:1801-1877 | the loop over members appends exactly their text |
| JsonPrinter.Print | lib/cJSON/cJSON.c:1234-1299 | the result is a block of exactly the text and its NUL; it fails exactly when the nesting exceeds 1000, the text plus two exceeds INT_MAX, or an allocation was refused, and then no buffer is left behind |
| JsonPrinter.Shrink | lib/cJSON/cJSON.c:1263-1283 | both ways of trimming the final buffer give the same block and release the other |
| JsonPrinter.PrintBuffered | lib/cJSON/cJSON.c:1312-1341 | the same text from any starting guess and any allocator; a successful print has read only from allocated blocks if and only if the guess was above 0 or realloc could be used, and otherwise it has read exactly one byte from outside |
| JsonPrinter.GuessOfZero | lib/cJSON/cJSON.c:529-568 | such an input: null, printed with a guess of 0 without realloc, comes out right after one byte was copied from an empty block |
| JsonPrinter.PrintPreallocated | lib/cJSON/cJSON.c:1343-1360 | a caller's buffer is enough exactly when it has the length of the text plus two |
| JsonMinify.MinifyTree | lib/cJSON/cJSON.c:2897-2965 | for any tree in any surroundings: what the scanner makes of its formatted text is its unformatted text, or differs from it, according to where strings ending in a backslash stand |
| JsonMinify.MinifyIsUnformatted | lib/cJSON/cJSON.c:2919-2965 | minified formatted text equals unformatted text if and only if no key ends in a backslash and no string does, except one with nothing but closing brackets behind it |
| JsonMinify.MinifyCanBreak | lib/cJSON/cJSON.c:2897-2917 | an array of a string that ends in a backslash and a null is not minified to its unformatted text |
| JsonMinified.LexemeKept | lib/cJSON/cJSON.c:2919-2965 | what the scanner makes of each white space byte, note, mark, word, number and string, and whether it is inverted behind it |
| JsonMinified.TextKept | lib/cJSON/cJSON.c:2919-2965 | a text that survives keeps its tokens and loses all notes, and all white space the scanner meets while not inverted |
| JsonMinified.MinifyKeeps | lib/cJSON/cJSON.c:2870-2965 | any JSON text, with line and block notes anywhere between its tokens, minified and parsed gives the tree it spells, unless the scanner meets, while inverted, a note or a string it takes something from |
| JsonMinified.BodySpoilt | lib/cJSON/cJSON.c:2897-2961 | a string from which the scanner takes a space or a slash is parsed to something else, whatever the scanner goes on to skip |
| JsonMinified.MinifyExactly | lib/cJSON/cJSON.c:2919-2965 | for JSON texts whose strings hold no control byte and no escaped space, slash or NUL, minifying and parsing gives the tree if and only if no string met while inverted has a space or slash in front of its first escaped quote, and the nesting fits |
| JsonMinified.MinifiedParses | lib/cJSON/cJSON.c:2919-2965 | so for every printed tree: formatted, minified and parsed it is the same tree if and only if every string met while the scanner is inverted, behind one ending in a backslash and until one with a quote that does not, has no space and no slash in front of its first quote |
| JsonMinified.MinifyCanAlter | lib/cJSON/cJSON.c:2897-2961 | an array of a backslash and "a b", formatted, minified and parsed, is an array of a backslash and "ab" |
| JsonMinified.MinifyCanSpare | lib/cJSON/cJSON.c:2897-2961 | an array of a backslash and a null is the same after minifying, although not in its unformatted text |
| JsonMinify.Minify | lib/cJSON/cJSON.c:2919-2965 | in place: the array ends up holding exactly what the scanner copies, terminated, within its bounds |
| JsonMinify.Step | lib/cJSON/cJSON.c:2925-2961 | one round of the scanner: the write position never passes the read position and what is still unread is intact |
| JsonMinify.CopyString | lib/cJSON/cJSON.c:2897-2917 | a string is copied to its closing quote, with the code's own rule for backslashes |
| JsonLists.GetArrayItem | lib/cJSON/cJSON.c:1917-1934 | walking the list gives the item at the index, or nothing beyond the end |
| JsonLists.AddItemToArray | lib/cJSON/cJSON.c:2022-2053 | the list invariant is kept and the list spells the old sequence with the item behind it |
| JsonLists.InsertItemInArray | lib/cJSON/cJSON.c:2329-2360 | likewise with the item in front of the given index, or at the end when the index is beyond it; a negative index is refused |
| JsonLists.DetachItemViaPointer | lib/cJSON/cJSON.c:2253-2287 | likewise without the item, whose links are cleared; a null parent or item is refused and changes nothing |
| JsonLists.ReplaceItemViaPointer | lib/cJSON/cJSON.c:2363-2410 | likewise with the replacement in the item's place; exactly the item and what it owned are freed, and a null argument is refused |
| JsonLists.AppendSpells | lib/cJSON/cJSON.c:2022-2053 | the pointers written by an append spell the longer sequence: inner links mutual, first prev is last, last next is null |
| JsonLists.InsertSpells | lib/cJSON/cJSON.c:2329-2360 | the same for an insertion |
| JsonLists.DetachSpells | lib/cJSON/cJSON.c:2253-2287 | the same for a removal |
| JsonLists.ExchangeSpells | lib/cJSON/cJSON.c:2363-2410 | the same for a replacement |
| JsonSession.Perform | lib/cJSON/cJSON.c:2022-2410 | one append, insert, detach or replacement, through the C functions, on a list of owned children and loose items with disjoint memory: list and ownership are what the edit says, everything that survives is unchanged, and exactly a replaced item is freed, with all it owns |
| JsonSession.Session | lib/cJSON/cJSON.c:2022-2410 | any legal sequence of such edits leaves exactly the list a plain sequence would be, linked and owned, with exactly the replaced items freed |
| JsonSession.WholeIsOwned | lib/cJSON/cJSON.c:253-276 | such a list is what deleting and printing ask for: owned, chained and a ring under its parent |
| JsonSession.ParentOwns | lib/cJSON/cJSON.c:2022-2410 | after a session the parent owns itself and the new children, so it can be printed or deleted as before |
| JsonSession.SessionReads | lib/cJSON/cJSON.c:2022-2410 | and an array or object reads as the array or object of the values the same edits leave in a plain sequence |
| JsonSession.OwnedIsWhole | lib/cJSON/cJSON.c:2010-2441 | an owned tree whose child list is a ring, as the parser leaves it, together with any items aside, is ready for a session |
| JsonEdits.ContentsFollowAll | lib/cJSON/cJSON.c:2010-2441 | the values of the items follow a session as a plain sequence would |
| JsonLists.RelinkedIsOwned | lib/cJSON/cJSON.c:2022-2410 | relinking the children does not change what they own |
| JsonDocument.PrintThenParse | lib/cJSON/cJSON.c:1142-1310 | through memory: printing a tree and parsing the block gives a second tree that reads the same, in blocks of its own; it fails exactly for excessive nesting or size or a refused allocation, and then nothing is left behind |
| JsonDocument.EditDocument | lib/cJSON/cJSON.c:1142-2441 | parse an array or object, edit its list in any session with items kept aside, print it: the text is that of the document after the same edits on a plain sequence; it fails exactly for a text that does not parse, excessive nesting or size or a refused allocation |
| SatCrc.CrcOfDifference | satellite/protocol/sat_protocol.h:102-115 | the CRC is linear: the registers of two messages differ by the register of their difference |
| SatCrc.ByteIsBits | satellite/protocol/sat_protocol.h:106-113 | mixing in a byte and shifting eight times is feeding its eight bits one at a time |
| SatCrc.BurstLeavesTrace | satellite/protocol/sat_protocol.h:102-115 | a difference confined to 16 consecutive bits never leaves the register zero |
| SatCrc.FeedParity | satellite/protocol/sat_protocol.h:106-113 | every step keeps the parity of register and message bits together |
| SatCrc.BurstNoticed | satellite/protocol/sat_protocol.h:102-115 | a message whose covered bytes were hit by any burst of at most 16 bits no longer matches its trailer |
| SatCrc.OddNoticed | satellite/protocol/sat_protocol.h:102-115 | nor does one with any odd number of flipped bits, trailer included |
| SatCrc.SeventeenCanSlip | satellite/protocol/sat_protocol.h:102-115 | in front of the trailer sixteen is the limit: the 17-bit pattern of the polynomial laid over any sealed message at any byte goes unnoticed |
| SatCrc.MixByte | satellite/protocol/sat_protocol.h:105-113 | the inner loop computes eight shifts of the register |
| SatBurst.ShortBurstNoticed | satellite/protocol/sat_protocol.h:102-115 | a burst of at most 12 bits anywhere in a frame, its trailer with the low byte first included, is noticed |
| SatBurst.ThirteenCanSlip | satellite/protocol/sat_protocol.h:102-115 | over the whole frame twelve is the limit: in every sealed frame of at least three bytes some change within 13 bits goes unnoticed |
| SatBurst.NoneFits | satellite/protocol/sat_protocol.h:102-115 | no change within 12 bits around the start of the trailer changes the CRC of the message as it changes the trailer |
| SatBurst.EightShiftsAre | satellite/protocol/sat_protocol.h:106-113 | eight shifts of the register in closed form, as shifts and exclusive ors |
| SatProtocol.SatCrc16 | satellite/protocol/sat_protocol.h:102-115 | the loop over the data computes the CRC of the byte string |
| SatProtocol.FrameCarries | satellite/host/src/sat_encoder.c:12-35 | from a built frame, of any 16-bit payload length, type, length, sequence number and payload can be read back; its trailer matches as long as header and payload have fewer than 65536 bytes, and its framing suits the receiver if and only if the payload has at most 246 |
| SatProtocol.FrameInjective | satellite/host/src/sat_encoder.c:12-35 | so two messages with the same frame are the same |
| SatProtocol.BuildFrame | satellite/host/src/sat_encoder.c:12-35 | for any payload length it refuses exactly when header, payload and trailer exceed the buffer, touching nothing; otherwise it writes the frame, leaves what is behind it and advances the 16-bit sequence number |
| SatProtocol.BurstBreaks | satellite/firmware/main/sat_receiver.c:44-54 | a burst of at most 16 bits in front of the trailer breaks the match |
| SatProtocol.OddBreaks | satellite/firmware/main/sat_receiver.c:44-54 | any odd number of flipped bits breaks it |
| SatProtocol.ShortBreaks | satellite/firmware/main/sat_receiver.c:44-54 | a burst of at most 12 bits anywhere in the frame breaks it |
| SatProtocol.NoticeableBreaks | satellite/firmware/main/sat_receiver.c:44-54 | so any change of one of these three kinds does |
| SatReceiver.StepValid | satellite/firmware/main/sat_receiver.c:74-124 | every byte keeps the relation between state, position, buffer and header; the position goes up by one or back to zero |
| SatReceiver.RunAppend | satellite/firmware/main/sat_receiver.c:126-145 | processing a stream in chunks is the same as processing it whole |
| SatReceiver.BlockProgress | satellite/firmware/main/sat_receiver.c:74-124 | k bytes into a well framed block the receiver is in the state that belongs to position k and holds those k bytes |
| SatReceiver.BlockDelivered | satellite/firmware/main/sat_receiver.c:44-124 | a well framed block, whatever its payload, is delivered exactly if its trailer matches, and leaves the receiver at rest |
| SatReceiver.StreamDelivered | satellite/firmware/main/sat_receiver.c:44-124 | of any sequence of well framed blocks exactly those with a matching trailer are delivered, once each and in order |
| SatReceiver.AllIntact | satellite/firmware/main/sat_receiver.c:44-54 | when all trailers match, that is all of them |
| SatReceiver.OnlyWindows | satellite/firmware/main/sat_receiver.c:44-124 | on an arbitrary stream every delivered frame is a contiguous piece of the input with good framing and a matching CRC, and the pieces follow each other without overlap |
| SatReceiver.Settles | satellite/firmware/main/sat_receiver.c:74-124 | a started frame is accepted or abandoned within 256 minus position further bytes |
| SatReceiver.PositionBound | satellite/firmware/main/sat_receiver.c:74-124 | the position never reaches the end of the buffer |
| SatReceiver.FillerResynchronises | satellite/firmware/main/sat_receiver.c:74-88 | from any state 256 bytes without the first magic byte bring the receiver back to rest |
| SatReceiver.CorruptedRejected | satellite/firmware/main/sat_receiver.c:44-54 | a sent frame with its framing bytes intact that arrives with a burst of at most 16 flipped bits in front of the trailer, of at most 12 anywhere, or any odd number of flipped bits, delivers nothing and leaves the receiver at rest |
| SatData.SnapshotBack | satellite/protocol/sat_protocol.h:80-94 | the fixed part of a snapshot, as laid out in 22 packed bytes, reads back field by field |
| SatData.IfaceBack | satellite/protocol/sat_protocol.h:68-77 | so does an interface record, in 22 bytes, with its signed signal level |
| SatData.PayloadBack | satellite/firmware/main/sat_data.c:17-69 | every field and every record is found at its offset, whatever follows in the buffer |
| SatData.DataModel.constructor | satellite/firmware/main/sat_data.c:10-10 | static storage starts as zero: nothing shown, an empty history, disconnected, no time, number or frame counted |
| SatData.DataModel.UpdateSnapshot | satellite/firmware/main/sat_data.c:17-84 | the display shows what the snapshot says, at most eight interfaces, with totals modulo 2^32, and the history is the last 60 totals including the new one; the connection fields stay |
| SatData.DataModel.CopyIfaces | satellite/firmware/main/sat_data.c:40-76 | the loop over the records computes the wrapped sums, the largest link speed and the shown records |
| SatData.DataModel.Push | satellite/firmware/main/sat_data.c:78-83 | pushing appends to the history and drops the oldest entry when 60 are there |
| SatData.DataModel.MarkAlive | satellite/firmware/main/sat_data.c:86-92 | a valid frame connects, and its time, its number and the frame count are noted |
| SatData.DataModel.CheckConnection | satellite/firmware/main/sat_data.c:94-100 | the connection is lost exactly when the last frame is more than 5000 ms old, the age taken modulo 2^32 |
| SatData.TimeoutIgnoresWrap | satellite/firmware/main/sat_data.c:94-100 | readings less than 2^32 ms apart give their true distance, even across a wrap of the clock |
| SatData.LinkScaleExact | satellite/firmware/main/sat_data.c:69-76 | the scale of the gauges, the largest of the wrapped products or 100 Mb/s when that is 0, is a million times the speed of the fastest interface if and only if no speed is above 4294 Mb/s and one is above 0 |
| SatFirmware.Receiver.constructor | satellite/firmware/main/sat_receiver.c:171-172 | the receiver starts at rest with nothing shown, an empty history, nothing counted and disconnected |
| SatFirmware.Receiver.ProcessFrame | satellite/firmware/main/sat_receiver.c:44-72 | a frame whose trailer matches is absorbed and connects; with any other the whole data model stays as it was |
| SatFirmware.Receiver.FeedByte | satellite/firmware/main/sat_receiver.c:74-124 | in place, one byte moves the automaton one step; the data model changes as the frame it completes says, and does not change at all when it completes none that matches |
| SatFirmware.Receiver.Receive | satellite/firmware/main/sat_receiver.c:137-138 | a chunk moves the automaton along it, the content along the frames it completes and the connection fields along their times; without such a frame the whole data model is unchanged |
| SatFirmware.Receiver.ReceiveCorrupted | satellite/firmware/main/sat_receiver.c:44-54 | a sent frame that arrives with its framing bytes intact and a burst of at most 16 flipped bits in front of the trailer, of at most 12 anywhere, or any odd number of flipped bits, leaves the whole data model untouched: display, history, counters, connection flag and time |
| SatFirmware.Receiver.Poll | satellite/firmware/main/sat_receiver.c:131-144 | one turn of the receiver task: the chunk, then the connection check |
| SatFirmware.Receiver.ReceiverTask | satellite/firmware/main/sat_receiver.c:126-145 | any number of turns: state and content depend on the bytes only, not on how they were cut into reads; and with turns closer than about 49.7 days the host counts as connected exactly when a frame was accepted within the last 5000 ms |
| SatConnection.ConnectedIff | satellite/firmware/main/sat_data.c:86-100 | over any frames and checks at any times: connected exactly when some frame was accepted and no check since the last one found its age, modulo 2^32, above 5000 ms |
| SatConnection.ConnectionIsFresh | satellite/firmware/main/sat_data.c:94-100 | with less than 2^32 - 5000 ms between one event and the next that means a frame within the last 5000 ms of true time |
| SatConnection.StaysDown | satellite/firmware/main/sat_data.c:86-100 | a flag that has fallen stays down over any run of checks, whatever the clock says, until the next accepted frame |
| SatConnection.UncheckedSilence | satellite/firmware/main/sat_data.c:94-100 | the pace is needed: without any check for 2^32 ms an old frame would count as new, with a single one in between it does not |
| SatFirmware.HistoryOfLog | satellite/firmware/main/sat_data.c:75-89 | after any frames the history is the last 60 snapshot totals and every accepted frame has been counted |
| SatFirmware.ChangeNeedsWindow | satellite/firmware/main/sat_receiver.c:44-72 | whenever content or connection fields change under a stream there is a piece of it that is well framed with a matching CRC |
| SatEncoder.FirstNamed | lib/cJSON/cJSON.c:1946-1981 | lookup gives the first member whose name matches without regard to case, and nothing only if none does |
| SatEncoder.WorstIsWorst | satellite/host/src/sat_encoder.c:123-135 | the forwarded severity is not exceeded by any active entry, and when above zero it is that of an active entry |
| SatEncoder.MaxSeverity | satellite/host/src/sat_encoder.c:127-134 | the loop over the entries computes it |
| SatEncoder.EncodeStatus | satellite/host/src/sat_encoder.c:37-185 | the buffer receives the snapshot frame of the status document, or, when that does not fit, nothing changes |
| SatEncoder.PutIfaces | satellite/host/src/sat_encoder.c:139-182 | the loop over the interfaces writes their records one after the other |
| SatEncoder.EncodeHeartbeat | satellite/host/src/sat_encoder.c:187-193 | the heartbeat frame, likewise |
| SatEncoder.MemoryPercentExact | satellite/host/src/sat_encoder.c:67-71 | the percentage of memory in use is right if and only if a hundred times the available kilobytes fit in 32 bits |
| SatLink.ShownFromPayload | satellite/firmware/main/sat_data.c:17-84 | what is shown depends on the payload only, not on bytes left in the buffer by earlier frames |
| SatLink.FrameUnderstood | satellite/firmware/main/sat_receiver.c:44-124 | a frame arriving at a resting receiver changes the data model exactly as its message means |
| SatLink.SessionUnderstood | satellite/host/src/sat_encoder.c:12-35 | any session of snapshots and heartbeats, numbered from any start, is understood message by message, once each and in order |
| SatLink.FlagsShown | satellite/host/src/sat_encoder.c:83-109 | connectivity flags arrive as they were in the document |
| SatLink.NameShown | satellite/host/src/sat_encoder.c:150-153 | interface names arrive cut to seven bytes |
| SatLink.LatencyShown | satellite/host/src/sat_encoder.c:93-97 | latencies arrive with one decimal, never above the original and less than 0.1 below it |
| SatLink.IfaceShownAs | satellite/host/src/sat_encoder.c:155-180 | flags, rates, speed and signal of an interface arrive as they were, fractions cut off |
| SatLink.StatusArrives | satellite/host/src/sat_encoder.c:37-185 | one status document, from JSON to display: flags, severity, interfaces |
| SatLink.StatusNumbersArrive | satellite/host/src/sat_encoder.c:37-185 | and its numbers: uptime, memory, latencies, loss and alert count |
| SatSeverity.WorstGradeIsWorst | src/core/alerts.h:28-32 | the worst active alert on the host's scale: no entry is worse and, if there is one, an entry has it |
| SatSeverity.SeverityMeant | satellite/host/src/sat_encoder.c:123-135 | for every representable document with severities of the host's scale: what the display shows means the worst active alert if and only if there is none; otherwise it means the next lower grade, and critical is never shown |
| SatSeverity.CriticalShownAsWarning | satellite/firmware/main/sat_ui.c:295-312 | a document with one active critical alert arrives as 2 and is shown as a warning |
| Ring.PushAppends | src/net/net_collector.c:289-296 | writing at the head of a ring appends an entry and drops the oldest once the ring is full |
| Ring.RecentTwice | src/net/net_collector.c:289-296 | keeping the last n entries step by step is keeping the last n of everything |
| AlertEngine.Engine.constructor | src/core/alerts.c:62-69 | counters, log and counts start at zero |
| AlertEngine.Engine.PushAlert | src/core/alerts.c:35-60 | the alert becomes the latest log entry, the oldest of 64 giving way, and counts as active |
| AlertEngine.Engine.Observe | src/core/alerts.c:111-147 | the hysteresis block: it pushes exactly when the streak of bad observations of its slot reaches a multiple of three, and keeps every counter equal to its slot's streak modulo three |
| AlertEngine.Engine.Raise | src/core/alerts.c:149-158 | conditions without hysteresis push at once and leave the counters alone |
| AlertEngine.Engine.Check | src/core/alerts.c:98-176 | the events of a check happen in the order of the code; afterwards the log holds the latest 64 alerts ever pushed, and the active count is right if and only if, before the check, no interface that counts is down or has errors with its counter at 2, neither an unreachable gateway nor a failing DNS finds its counter at 2, and the gateway is not reachable above 100 ms |
| AlertEngine.SlowGatewayReport | src/core/alerts.c:149-175 | a run of the engine that shows it: after one check of a slow gateway the count is 2 and one entry is active |
| Alerts.CheckGrows | src/core/alerts.c:98-170 | a check pushes an alert if and only if a slot of it is one bad observation short of three, or the gateway is slow |
| Alerts.ReportIsRight | src/core/alerts.c:54-176 | hence the count reported after a check is the number of active entries exactly when no push was due before it |
| AlertEngine.Engine.CheckIfaces | src/core/alerts.c:105-135 | the loop over the interfaces, skipping ignored ones |
| AlertEngine.Engine.CountActive | src/core/alerts.c:172-175 | counting in array order counts the active entries of the log |
| AlertEngine.Engine.ClearAll | src/core/alerts.c:190-196 | clearing takes the active mark off every entry and sets the count to zero; counters and entries stay |
| Alerts.PushesAreTriples | src/core/alerts.c:111-147 | over any history, including clears, the alerts a slot has pushed are the sum over its maximal bad runs of a third of the run's length |
| AlertSeries.AlertsPerSlot | src/core/alerts.c:98-196 | the same in terms of any series of checks and clears: interface down, interface errors, gateway and DNS; an interface that is ignored or not yet known is not observed |
| AlertSeries.LatencyAlerts | src/core/alerts.c:149-158 | in any such series the latency alerts pushed are as many as the checks that found the gateway reachable above 100 ms |
| AlertSeries.LatencyRule | src/core/alerts.c:149-158 | so the documented rule, an alert for every three checks in a row, holds for latency if and only if no check found the gateway slow |
| AlertSeries.NothingDismissed | src/core/alerts.c:98-170 | whatever checks find, the alerts pushed before stay as they are, active mark included |
| AlertSeries.OnlyClearDismisses | src/core/alerts.c:98-196 | in any series an alert is active if and only if it was pushed after the last clear |
| AlertSeries.GoodChecksDismissNothing | src/core/alerts.c:138-147 | after three checks without a gateway and any number of good ones, the gateway alert is there and active |
| Alerts.TriplesGrow | src/core/alerts.c:112-121 | one more observation adds an alert exactly when it is bad and completes three |
| Alerts.ActiveAnyOrder | src/core/alerts.c:172-175 | the array order of the log is a rotation of its order in time, with the same number of active entries |
| Alerts.OneSlowPing | src/core/alerts.c:149-175 | one check of a slow gateway leaves one active entry, and two is what is reported |
| Collector.SlowNames | src/net/net_collector.c:481-501 | merging any enumeration keeps names distinct and every known interface at its index |
| Collector.NamesAreStable | src/net/net_collector.c:301-501 | so does any interleaving of fast and slow ticks |
| Collector.CreditSums | src/net/net_collector.c:325-384 | the rate loop adds to an interface exactly the bytes and rates of the sample entries that count for it |
| Collector.FastLane | src/net/net_collector.c:301-416 | what one fast tick does to the totals, accumulators and long history of an interface |
| Collector.BaseAfter | src/net/net_collector.c:337-346 | after a tick the next difference is taken from the counter just seen, although the lookup only goes as far as there are known interfaces |
| Collector.FastKeepsBalance | src/net/net_collector.c:350-372 | a counted tick leaves today's total minus the latest counter unchanged, modulo 2^64 |
| Collector.SlowKeepsBalance | src/net/net_collector.c:481-501 | and so does a slow tick |
| Collector.TotalsTelescope | src/net/net_collector.c:301-416 | under any interleaving, for an interface seen in every sample below position num_ifaces at strictly later times, today's total minus the latest counter never changes, modulo 2^64, in either direction of traffic |
| Collector.TotalFromZero | src/net/net_collector.c:370-372 | hence, counted from zero, today's total is the last counter minus the one before the first counted tick, modulo 2^64 |
| Collector.FirstTickOnlyLooks | src/net/net_collector.c:320-321 | the first fast tick counts nothing |
| Collector.LongHistoryAddsUp | src/net/net_collector.c:381-400 | under any interleaving, sixty times each long-history sample is the sum of the rates credited since the previous flush, the history is the last 1440 of them, a flush comes with every sixtieth fast tick, and the rest is still in the accumulators |
| Collector.SampleShown | src/net/net_collector.c:350-384 | a counted tick that sees an interface once shows its counters and rates, raises its peaks to them where they are higher, and appends them to its short history of the last 60 |
| CollectorTicks.Tables.FindIface | src/net/net_collector.c:326-335 | the lookup loop finds the first interface of that name |
| CollectorTicks.Tables.CreditEntry | src/net/net_collector.c:325-384 | in place: the body of the rate loop |
| CollectorTicks.Tables.CloseMinute | src/net/net_collector.c:388-400 | in place: the flush every sixty samples, for the known interfaces |
| CollectorTicks.Tables.FastTimer | src/net/net_collector.c:301-416 | in place: the whole fast tick over the shared arrays does what the lemmas are about |
| CollectorTicks.Tables.SlowTimer | src/net/net_collector.c:481-501 | in place: the merge of an enumeration |
| InfraProbe.RoundMeetsOnce | src/net/net_collector.c:445-464 | a round over the table from any start meets every enabled device once and no other |
| InfraProbe.RoundRotates | src/net/net_collector.c:445-464 | a tick takes the first stop of its round, and the next round is this one with that stop moved to the end |
| InfraProbe.EveryDeviceOnce | src/net/net_collector.c:445-464 | with E devices enabled any E consecutive ticks probe each of them exactly once |
| InfraProbe.TicksAreFair | src/net/net_collector.c:445-464 | the same for the real ticks, which also record results in the table: the outcomes do not matter |
| InfraProbe.ProbeNext | src/net/net_collector.c:445-464 | the loop probes the first enabled device from the index on, if any, updates only that device, and leaves the index behind it |
| Config.GetIsLookup | src/core/config.c:72-80 | lookup in a table with distinct keys is lookup in the map it stands for |
| Config.SetIsUpdate | src/core/config.c:105-117 | for keys that fit, setting keeps keys distinct and is a bounded map update: it is dropped only when the table is full and the key is new |
| Config.SetKeepsDistinct | src/core/config.c:105-117 | for any key, setting keeps keys distinct if and only if the key fits, the table is full, or its first 63 bytes are not a key yet |
| Config.SetThenGet | src/core/config.c:72-117 | a value set is read back, cut to 127 bytes, if and only if the key fits and is known or there is room |
| Config.SavedLineBack | src/core/config.c:133-135 | a saved line parses and stores as the entry it came from if and only if the entry is legible: key non-empty, key and value trimmed, no equals sign in the key, no leading hash |
| Config.LoadClean | src/core/config.c:31-70 | clean entries load in their order behind those already there |
| Config.LoadedIsOneLine | src/core/config.c:40-66 | nothing loaded from any file contains a newline |
| Config.LoadOfSaved | src/core/config.c:31-139 | saving a table and loading the file gives the same entries in the same order if and only if keys are distinct and every entry is one line and legible |
| ConfigStore.TrimInPlace | src/core/config.c:8-19 | in place: the pointer returned designates the trimmed string, and no byte outside the string is touched |
| ConfigStore.SplitLine | src/core/config.c:42-54 | in place: a line buffer is split and trimmed to the key and value the line states, or to nothing |
| ConfigStore.ReadLine | src/core/config.c:41-41 | a line is read up to and including its newline, at most 255 bytes |
| ConfigStore.Store.FindKey | src/core/config.c:21-29 | the loop finds the first entry with the key |
| ConfigStore.Store.GetStr | src/core/config.c:72-80 | the value of the key, or the default |
| ConfigStore.Store.SetStr | src/core/config.c:105-117 | in place: the table becomes what setting makes of it |
| ConfigStore.Store.Save | src/core/config.c:126-139 | the text written has one line an entry, in order |
| ConfigStore.Store.LoadText | src/core/config.c:31-70 | in place: the table becomes what the file's contents load to, stopping at the first entry line after 64 entries |
| PacketChecksum.LoopFoldIsModular | src/net/net_discovery.c:70-71 | folding the carries is arithmetic modulo 65535, with zero only from zero |
| PacketChecksum.FoldsAgree | src/net/net_ping.c:40-41 | the fixed two-step fold equals the loop-until-16-bit fold for every 32-bit sum |
| PacketChecksum.IcmpChecksum | src/net/net_ping.c:28-44 | for data of any length, odd ones included, the function computes the complement of the folded, wrapped word sum |
| PacketChecksum.ProbeChecksum | src/net/net_discovery.c:65-72 | the inlined loop computes the same function of its packet |
| PacketChecksum.NeverOverflows | src/net/net_ping.c:28-44 | adding its own checksum to a 32-bit sum never overflows |
| PacketChecksum.RecomputeIsZero | src/net/net_ping.c:83-89 | with the checksum stored in its zeroed, aligned field, computing it again gives 0, for data of any length |
| PacketChecksum.BuildRequest | src/net/net_ping.c:74-89 | the echo request carries the next sequence number and checks out |
| DnsName.EncodeQname | src/net/net_dns.c:38-66 | it returns -1 exactly when a label is empty (beyond one trailing dot), a label exceeds 63 bytes, or the encoding is not shorter than the buffer; otherwise it writes the encoding of the labels and touches nothing behind it |
| DnsName.EncodedBack | src/net/net_dns.c:38-66 | decoding the encoding gives the labels back, whatever follows |
| DnsName.LabelsJoin | src/net/net_dns.c:43-59 | a hostname is its labels joined by dots, but for one trailing dot |
| DnsName.EncodingInjective | src/net/net_dns.c:38-66 | hostnames with the same encoding differ at most in one trailing dot |

## Left out

- JsonPrinter.PrintBuffer.PrintNumber: covers 32-bit integers printed with "%d"; the "%1.15g" and "%1.17g" formats, NaN and infinity are not modelled.
- JsonParser.Parser.ParseNumber: takes `strtod` to be exact; rounding, overflow to infinity and the locale's decimal point are not modelled.
- JsonMinified.MinifyExactly: strings must hold no control byte and no escaped space, slash or NUL, as printed ones do; for the others only JsonMinified.MinifyKeeps, one direction, is proved, since an escape may make up for a byte that is lost.
- JsonDocument.EditDocument: numbers of the document and of the items brought in must be 32-bit integers, as for printing.
- JsonLists.AddItemToArray: items must be fresh; adding an item that is already in a list is not modelled. The same goes for the loose items of JsonSession.Session.
- JsonLists.DetachItemViaPointer: the item must be in the parent's list; the code's guard for a stranger without a predecessor is therefore never taken.
- SatEncoder.EncodeStatus: requires every number it casts to be in the range of its type, because the C standard leaves the other casts open; the document is taken as a value, its memory being the subject of the JSON modules.
- SatData.DataModel.UpdateSnapshot: divides latencies by ten exactly, without the rounding of `float`.
- SatFirmware.Receiver.ReceiverTask: takes what each read returned and when as given; the idle delay shows only in the times, and the USB driver is not modelled.
- Collector.LongHistoryAddsUp: adds rates exactly, without the rounding of `float`.
- Collector.Fast: leaves out memory and uptime readings; the sample comes parsed, with at most eight entries.
- Collector.Slow: models the interface merge; DNS probe, ARP table, WAN discovery, promiscuous mode and the WiFi manager are not modelled.
- CollectorTicks.Tables.constructor: starts before the first enumeration, whose count the code stores unchecked; a negative count is not modelled.
- InfraProbe.ProbeNext: takes the device table as it is; editing it in the settings between ticks is not modelled.
- AlertEngine.Engine.Check: takes times and interface names as given; log lines are not modelled, and the list of ignored interfaces comes parsed.
- ConfigStore.Store.LoadText: takes the file's contents; failing to open a file, and `config_get_int` and `config_get_double`, are not modelled.
- PacketChecksum.BuildRequest: sending the request and waiting for the reply are not modelled.
- cJSON type predicates, `cJSON_Compare`, `cJSON_Duplicate`, the add-to-object helpers, hooks, reference items and constant keys: they would mostly add easy members.
- Traceroute and WAN quality statistics, ARP, WiFi and connection tables, the HTTP API and the beacon: they are input and output around the modelled steps.
- The user interface, the display driver and the serial port.
