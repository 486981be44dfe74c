# A verified model of the wire and JSON code of the server

The server speaks the Minecraft protocol over TCP and answers status requests in JSON. This project models
the parts of it that carry the most logic and proves properties of them:

- **The JSON engine** (`src/cJSON.c`). `JsonParser` is the recursive-descent parser as functions on a text and a
  position; `JsonReader` is the parser as it runs, a buffer whose offset and depth move and items that are linked
  and filled, proved against those functions; `StringDecoder` is the second pass of string parsing, which writes
  into a buffer the first pass has sized. `JsonGrammar` tells where the texts of RFC 8259 and their parts stand, and
  `JsonLimits` proves that each of them has one reading and that the parser reads it as the tree it denotes exactly if
  it is nested at most 1000 deep, has no number of more than 63 bytes and no string that the code cannot keep: one
  that denotes a NUL or has half of a surrogate pair. `JsonScans` is the scan that decides the latter. `JsonAccepts`
  proves that the parser accepts nothing else than that grammar with looser literals and numbers, which `LooseStrings`
  and `LooseNumbers` tell apart from how they are read; `JsonTexts` says the same of whole C strings. `JsonRender`
  is the printed text as a function of the tree, and `JsonRoundTrip` proves that parsing it gives the tree back;
  `JsonPrinter` is the printer as it runs, a walk over items that fills a buffer, which grows or does not.
  `JsonMinify` is the in-place minifier; `MinifyLaws` cuts every text into pieces and says what is left of each,
  `MinifiedText` proves that it turns a text of the grammar into one for the same tree, and `MinifiedPrint` says exactly
  when it turns the formatted print of a tree into the unformatted one.
- **Trees of items on the heap** (`src/cJSON.c`). `NodeLists` has the operations on the circular list of children,
  `NodeTrees` whole trees and their duplication, `NodeValues` what a tree stands for, `NodeChains` how the parser
  builds its lists. `JsonCompare` is comparison on values, `TreeEquality` says what it decides, and `NodeCompare` is comparison as it runs.
- **The wire codec** (`src/data_types.c`, `src/endian.c`, `src/packet.c`, `src/main.c`). `VarInts`, `Endian` and
  `PacketFields` say how fields are written and read; `PacketBuffers` has the builder and the reader as they run,
  on hosts of either byte order. `Framing` is the deframer as a machine that takes a byte at a time, and
  `PacketStreams` is `connection_read_cb`, which resumes over arbitrary chunks, proved to do what the machine does.
  `Messages` puts them together: fields to frames to chunks to packets to fields.
- **Structured encoders** (`src/packet.c`, `src/packet_types.c`). `NbtFormat` and `NbtWriter` turn a JSON tree into
  NBT; `CommandGraph` writes the command graph. Both come with a decoder that recovers what was written.
- **The bytes themselves**, spelled out as numbers and without the names the code has for them: `ParserBytes`,
  `NumberValues`, `SpelledEscapes`, `PrintedStrings` and `PrintLayout` for JSON, `WireNumbers` and `NbtBytes` for the wire.

`Bits` has the bit operators of C on non-negative integers and what they amount to; `ByteStrings` has byte
sequences, C strings and pieces that stand at a position; `JsonData` has the tree as a value.

Buffers that the code writes to are arrays here: the output of string parsing, the copies of numbers, the print
buffer, the minified text, the bytes of a packet builder and the payload of a stream. A write past one of them
cannot happen without a proof failing. Texts that are only read are sequences with checked indices.

What the code does and its documentation does not say:

- Not every text of RFC 8259 is read as what it denotes: a number of more than 63 bytes is cut, so that an array with
  one is rejected, a string ends at `\u0000`, and half of a surrogate pair is rejected (`JsonLimits.LongNumberRejected`,
  `JsonLimits.OneEscape`).
- Beyond RFC 8259, numbers like `1.` and `-.5` are accepted and `1e` is read as 1 followed by a letter
  (`LooseNumbers.NumberExactly`), and a `\u` with a bad digit counts as zero and takes the four bytes all the same, so
  that an escape behind it can be torn (`LooseStrings.StringIsLoose`).
- `cJSON_PrintPreallocated` needs two bytes more than the text, not the five of the note at `src/cJSON.h:168`.
- Minifying does not always keep the meaning of a text, or turn the formatted print into the unformatted one: a string
  that ends in a backslash makes the minifier run past the closing quote (`MinifiedPrint.SpoiltExample`).
- `cJSON_Compare` of a tree with itself is true by identity, but a copy of a tree with a repeated key need not
  compare equal. With integers it does exactly if every member has the value of the first member with its key
  (`NodeCompare.CopyComparesEqual`, `JsonCompare.TwiceTheSameKey`).
- Elements of an NBT list carry their own tag, which the format does not have: a reader that follows the format
  recovers a document exactly if there is no array in it (`NbtFormat.PlainDocument`, `NbtFormat.ListMisread`).
- A position survives the wire exactly if x and z fit 26 bits and y fits 12.
- The index of a redirect in the command graph is never written, so that the bytes determine the graph exactly if it
  has no redirect (`CommandGraph.BytesDetermine`).

`dafny verify dfyconfig.toml` checks the project.

## Model

| member | source | states |
|---|---|---|
| JsonParser.SkipBlanks | src/cJSON.c:1061-1084 | Skipping blanks never lowers the position in spite of its step back, and stays inside the text. |
| ParserBytes.SkipsTo | src/cJSON.c:1061-1084 | Bytes up to 32 are skipped, up to the first byte above 32 or the last byte of the text. |
| JsonParser.ParseValue | src/cJSON.c:1339-1391 | On every text and position the parser ends, and whenever it accepts it has moved forward and not past the end. |
| JsonGrammar.ParsesValue | src/cJSON.c:1339-1391 | A text of the RFC 8259 grammar whose numbers and strings the code can keep is read as the tree it denotes, up to its end, if and only if it is nested at most 1000 deep; deeper texts are rejected. |
| JsonGrammar.ParsesArray | src/cJSON.c:1468-1563 | An array of the grammar with blanks anywhere between its tokens gives its elements in order, or is rejected exactly for its nesting. |
| JsonGrammar.ParsesObject | src/cJSON.c:1628-1743 | The same for an object, with repeated keys kept in their order. |
| JsonAccepts.AcceptsExactly | src/cJSON.c:1339-1391 | parse_value accepts a text as a tree with a given end if and only if it is a text of the grammar for the tree, with the literals and numerals of the next two rows, and the tree is nested at most 1000 deep: no trailing comma, no missing colon, nothing else. |
| JsonAccepts.AcceptedLiterals | src/cJSON.c:795-922 | The literals of that grammar are the loose ones of `LooseStrings`, with their ends and values. |
| JsonAccepts.AcceptedNumerals | src/cJSON.c:310-384 | The numerals of that grammar start with a minus sign or a digit and are the longest loose ones of `LooseNumbers`. |
| LooseStrings.StringIsLoose | src/cJSON.c:795-922 | parse_string accepts exactly the lists of plain bytes, short escapes, \u escapes and pairs up to the first bare quote, as what they denote up to the first NUL; a \u takes any four bytes, which count as zero unless all are digits and then are no half of a pair. |
| LooseStrings.FindsBareQuote | src/cJSON.c:808-830 | On every text the measuring pass finds the first quote with an even number of backslashes in front of it, and fails exactly if there is none. |
| LooseNumbers.NumberExactly | src/cJSON.c:310-384 | parse_number reads exactly the longest token of its window of 63 bytes that has an optional sign, digits with at most one point and an exponent only if it has digits, as the number it denotes; it rejects exactly if there is none. |
| JsonLimits.ReadsExactly | src/cJSON.c:1339-1391 | Every text of the RFC 8259 grammar is read as the tree it denotes, up to its end, if and only if it is nested at most 1000 deep and a scan of it finds no number of more than 63 bytes, no string that denotes a NUL and no half of a surrogate pair; if only the nesting is too deep it is rejected. |
| JsonLimits.StandardIsAccepted | src/cJSON.c:1339-1391 | A text of the RFC 8259 grammar is one of the accepted ones, with the same tree and the same end, if and only if that scan finds nothing. |
| JsonLimits.LongNumberRejected | src/cJSON.c:324-364 | An array of one number with more than 63 digits is a text of the grammar and is rejected. |
| ParserBytes.NestedLevels | src/cJSON.c:1468-1743 | Arrays and objects in one another, in any order, are accepted as what they are, to their end, if and only if there are at most 1000 of them. |
| JsonLimits.OneEscape | src/cJSON.c:674-792 | The string of one \u escape with four digits denotes its code point; it is read as the empty string if that is NUL, rejected if it is half of a pair, and read as it is otherwise. |
| JsonTexts.ParsesWholeText | src/cJSON.c:1118-1155 | A C string that is a text of the grammar that the code can keep, between blanks and behind an optional byte order mark, is accepted up to its terminator unless it is nested too deeply. |
| JsonTexts.ReadsWholeText | src/cJSON.c:1118-1155 | A C string that is a text of the RFC 8259 grammar is accepted up to its terminator as the tree it denotes if and only if the code can keep its numbers and strings and it is nested at most 1000 deep. |
| JsonTexts.AcceptsTextExactly | src/cJSON.c:1102-1155 | With the terminator required a C string is accepted as a tree if and only if the whole of it is such a text for the tree, and then reading stops at the terminator. |
| ParserBytes.MarkSkipped | src/cJSON.c:1086-1099 | The bytes 239, 187, 191 are skipped at the start if two more bytes are there. |
| JsonNumber.ParseNumberAt | src/cJSON.c:310-384 | A number token of the grammar, followed by nothing that could extend it, is read whole and as the number it denotes if and only if it has at most 63 bytes. |
| NumberValues.TokenDenotes | src/cJSON.c:310-384 | A token denotes the sum of its digits by their places, moved by the exponent and by the digits behind the point, with its sign. |
| NumberValues.TokenBytesAre | src/cJSON.c:324-349 | The bytes of a token, with the numbers of signs, point, exponent marks and digits. |
| JsonNumber.StrtodShift | src/cJSON.c:324-364 | Reading the copied window gives the number and the length that reading the text itself gives. |
| JsonNumber.DecimalTokenValue | src/cJSON.c:587-590 | What is printed for a 32-bit integer is a number token of at most 11 bytes that denotes it. |
| NumberValues.DecimalBytes | src/cJSON.c:587-590 | An integer is printed as the digits whose sum by places it is, none of them a leading zero, behind a minus sign if it is negative. |
| JsonData.ToIntCuts | src/cJSON.c:366-378 | The int kept beside a number is the number cut off toward zero inside the range of the type, an integer is kept as it is, and beyond the range it is the end of the range. |
| JsonString.ReadsString | src/cJSON.c:795-922 | A string literal of the grammar is read up to its closing quote as the bytes it denotes up to the first NUL, whatever follows it, or rejected exactly if a surrogate in it is no half of a pair. |
| JsonString.ReadsWholeString | src/cJSON.c:795-922 | It is read as the bytes it denotes if and only if its surrogates are paired and there is no NUL among them. |
| JsonString.FindsClose | src/cJSON.c:808-830 | The measuring pass finds the quote that closes a literal of the grammar, never one inside an escape. |
| JsonString.DecodesValue | src/cJSON.c:841-899 | The decoding pass gives what a literal of the grammar denotes: short escapes, \u escapes and surrogate pairs; it fails exactly if a surrogate is no half of a pair. |
| JsonString.StringExactly | src/cJSON.c:674-922 | On literals whose \u escapes have four digits parse_string does exactly what the grammar says, in accepting and in rejecting, but for surrogates that are no half of a pair, which it rejects, and for what comes behind a NUL, which it drops. |
| JsonString.Utf8Inverse | src/cJSON.c:737-786 | Decoding the UTF-8 form (section 3 of RFC 3629) of a code point gives the code point back. |
| JsonString.Hex4Inverse | src/cJSON.c:637-671 | parse_hex4 undoes the four lower-case digits that the printer writes. |
| SpelledEscapes.FourSpelled | src/cJSON.c:637-671 | Four bytes count as v, if it is not zero, exactly if they spell v in hexadecimal, each digit in either case; bytes that spell no number count as zero. |
| SpelledEscapes.ReadsUnit | src/cJSON.c:674-792 | The string of one \u escape, in every spelling of its digits, is read as the UTF-8 form of its number, as the empty string if that is 0, and rejected if it is from D800 to DFFF. |
| SpelledEscapes.ReadsPair | src/cJSON.c:674-792 | Every code point beyond 16 bits is read from the escapes of its two halves, in every spelling, as its UTF-8 form. |
| SpelledEscapes.Utf8Shape | src/cJSON.c:737-786 | That form has the least length for the code point, and first and later bytes in their ranges (section 3 of RFC 3629). |
| SpelledEscapes.ReadsShort | src/cJSON.c:861-885 | Each short escape is read as its byte, and any other byte behind a backslash, but u, is rejected. |
| JsonString.QuotedAt | src/cJSON.c:925-1044 | The printed form of any string is a literal of the grammar that denotes the string, without surrogates. |
| PrintedStrings.ByteWritten | src/cJSON.c:955-1036 | A byte above 31 other than 34 and 92 is written as itself; 34, 92, 8, 9, 10, 12 and 13 with a backslash and their letter; every other byte below 32 as \u00 and two lower-case digits. |
| PrintedStrings.WrittenPlain | src/cJSON.c:955-1008 | A string is written as it is between quotes if and only if it has no byte below 32, no quote and no backslash. |
| PrintedStrings.ShortestPrint | src/cJSON.c:925-1044 | No literal of the grammar that denotes a string and has no control bytes is shorter than the one that is written. |
| PrintedStrings.WrittenIsOne | src/cJSON.c:925-1044 | The one that is written is such a literal. |
| StringDecoder.LiteralStep | src/cJSON.c:808-839 | A \u escape that decodes, with good or bad digits and wherever the two passes stand, leaves room for all the bytes it writes. |
| StringDecoder.DecodeIsLocal | src/cJSON.c:841-899 | Decoding depends on no byte behind the closing quote. |
| StringDecoder.ParseHex4 | src/cJSON.c:637-671 | Four digits give their number, and one bad digit makes the whole number 0. |
| StringDecoder.WriteUtf8 | src/cJSON.c:737-786 | The shift-and-mask loop writes the UTF-8 form of the code point and touches nothing else. |
| StringDecoder.PairBits | src/cJSON.c:728-729 | The bit formula for a surrogate pair is the code point of section 2.2 of RFC 2781. |
| StringDecoder.Utf16LiteralToUtf8 | src/cJSON.c:674-792 | An escape is rejected or written as UTF-8 exactly as its units say, with its length in the text. |
| StringDecoder.DecodeInto | src/cJSON.c:833-899 | For every input the decoding pass stays inside the size that the measuring pass computed, terminator included, and gives what the literal denotes. |
| JsonReader.ParseBuffer.SkipWhitespace | src/cJSON.c:1061-1084 | The loop with its step back does what SkipBlanks says. |
| JsonReader.ParseBuffer.ParseNumber | src/cJSON.c:310-384 | The copy of at most 63 bytes and the advance by the length read agree with the number function; the item gets the number and its saturated int. |
| JsonReader.ParseBuffer.ParseString | src/cJSON.c:795-922 | Both passes with the computed allocation agree with the string function, for every input; the item gets the string. |
| JsonReader.ParseBuffer.ParseValue | src/cJSON.c:1339-1391 | The parser on the moving buffer accepts what the parser function accepts, with the same offset, and restores the depth. The item it fills is then the root of a tree in which everything else is new, no item occurs twice, every list of children is linked with the head pointing back to the tail, every kind has its data, and which stands for exactly the tree of the parser function. |
| JsonReader.ParseBuffer.ParseItems | src/cJSON.c:1503-1540 | The loop over elements builds a chain of new items that stand for the elements in order, and stops at the closing bracket. |
| JsonReader.ParseBuffer.ParseNextItem | src/cJSON.c:1505-1538 | A round links a new item behind the last one and then fills it; the chain so far keeps its links and its values. |
| JsonReader.ParseBuffer.ParseMembers | src/cJSON.c:1661-1719 | The loop over members builds a chain of new items with keys that stand for the members in order, and stops at the closing brace. |
| JsonReader.ParseBuffer.ParseMember | src/cJSON.c:1684-1717 | The name is read as the string of the item and moved to its key, then the value is read into the same item. |
| NodeChains.LinkNext | src/cJSON.c:1512-1524 | An item without contents goes behind the last one of a chain, whose trees stay joined. |
| NodeChains.CloseList | src/cJSON.c:1542-1551 | The head learns the tail and the item its first child: the list invariant is established for the whole tree. |
| JsonReader.ParseWithLengthOpts | src/cJSON.c:1118-1195 | Byte order mark, value and required terminator are handled as the function on texts says. An accepted text gives a tree of new items only that is in order and stands for the value; for a rejected one the error position is inside the text. |
| JsonRender.RenderedAt | src/cJSON.c:1394-1463 | The print of every printable tree, in both modes, is a text of the grammar that denotes the tree, and one that the code can keep. |
| PrintLayout.WordsPrinted | src/cJSON.c:1405-1433 | null, false and true are printed as these words. |
| PrintLayout.ArrayPrinted | src/cJSON.c:1566-1625 | An array is printed as its elements in brackets, with a comma between each two and a space behind it in formatted mode. |
| PrintLayout.ObjectPrinted | src/cJSON.c:1746-1857 | An object is printed as its members in braces, with commas between them; in formatted mode each has a line of its own, indented by tabs, with a tab behind the colon, and the closing brace is indented like the object. |
| JsonRoundTrip.PrintParse | src/cJSON.c:1339-1391 | Parsing printed text with any suffix that cannot extend a number gives the same ordered tree and consumes exactly the text, if and only if it is nested at most 1000 deep. |
| JsonRoundTrip.PrintParseText | src/cJSON.c:1102-1115 | The same for cJSON_ParseWithOpts on the printed C string with its terminator required. |
| JsonRoundTrip.RenderInjective | src/cJSON.c:1394-1463 | Printable trees with the same print, in whatever modes and however deeply nested, are the same tree. |
| JsonLimits.OneReading | src/cJSON.c:1339-1391 | From a position on a text of the RFC 8259 grammar has one value and one end, unless a number could be extended there. |
| JsonPrinter.PrintBuffer.Ensure | src/cJSON.c:461-544 | Space is granted exactly if it and one byte more fit the largest size the buffer can have; what was written is kept. |
| JsonPrinter.PrintBuffer.UpdateOffset | src/cJSON.c:547-557 | The offset moves to the terminator of what was just written. |
| JsonPrinter.PrintBuffer.PrintNumber | src/cJSON.c:567-634 | An integer is formatted in a buffer of 26 bytes and appended in decimal, exactly if it fits with two bytes to spare. |
| JsonPrinter.PrintBuffer.PrintString | src/cJSON.c:925-1044 | The string is appended in quotes, exactly if it fits with two bytes to spare; a missing string is printed like an empty one. |
| JsonPrinter.PrintBuffer.PrintText | src/cJSON.c:949-1044 | The computed length is the length written, with and without escapes. |
| JsonPrinter.PrintBuffer.PrintValue | src/cJSON.c:1394-1463 | Walking a tree of items appends exactly the rendering of what the tree stands for, keeps what was before it and restores the depth; it succeeds exactly if the text and two bytes fit. |
| JsonPrinter.PrintBuffer.PrintArray | src/cJSON.c:1566-1625 | The same for arrays, following the next pointers of the children. |
| JsonPrinter.PrintBuffer.PrintObject | src/cJSON.c:1746-1857 | The same for objects, with indentation, keys and separators. |
| JsonPrinter.Print | src/cJSON.c:1210-1275 | The result is the rendering and its terminator in a buffer of that size, unless the text does not fit an int. |
| JsonPrinter.PrintBuffered | src/cJSON.c:1288-1317 | From every size to begin with, the result starts with the rendering and its terminator. |
| JsonPrinter.PrintPreallocated | src/cJSON.c:1319-1336 | It succeeds if and only if the length is at least that of the text plus two, and then gives the same text. |
| JsonMinify.MinifyInPlace | src/cJSON.c:2885-2931 | On every C string the result is the pure filter of the original text, in place, with every byte behind the string unchanged. |
| JsonMinify.MinifyString | src/cJSON.c:2863-2883 | A string is copied up to its closing quote; the write cursor never passes the read cursor. |
| JsonMinify.SkipMultilineComment | src/cJSON.c:2849-2861 | The cursor moves behind the comment, or to the end if it is not closed. |
| JsonMinify.Minify | src/cJSON.c:2885-2931 | Minifying never makes a text longer. |
| JsonMinify.MinifyTwice | src/cJSON.c:2885-2931 | Minifying twice is minifying once. |
| MinifyLaws.PiecesLeft | src/cJSON.c:2885-2931 | A text made of white space, line comments, block comments, lone slashes, strings and other bytes, at the end of which a comment or a string may be left open, is minified to its strings and its other bytes: everything else vanishes and they stay, in their order. |
| MinifyLaws.MinifyLeaves | src/cJSON.c:2885-2931 | Every text is made of such pieces, so that this is what minifying does to every text. |
| MinifyLaws.MinifyJoins | src/cJSON.c:2885-2931 | Behind a text that ends outside strings and comments another text is minified as if it stood alone. |
| MinifyLaws.LineCommentVanishes | src/cJSON.c:2837-2847 | A comment from two slashes to the next line feed vanishes, and what is behind the line feed stays. |
| MinifyLaws.BlockCommentVanishes | src/cJSON.c:2849-2861 | So does a comment from a slash and a star to the first star and slash. |
| MinifyLaws.LineEndIs | src/cJSON.c:2837-2847 | The cursor moves behind the first byte 10, or to the end if there is none. |
| MinifyLaws.CommentEndIs | src/cJSON.c:2849-2861 | The cursor moves behind the first 42 and 47, or to the end if there are none. |
| MinifiedText.MinifiedIsText | src/cJSON.c:2885-2931 | Minifying a text of the RFC 8259 grammar in which no literal ends in an escaped backslash gives a text of the grammar for the same tree, and one that the code can keep if the text was. |
| MinifiedText.MinifiedParses | src/cJSON.c:2885-2931 | So the parser reads the same tree from a text that it can keep and from the minified text, or rejects both for their nesting. |
| MinifiedPrint.MinifiedPrint | src/cJSON.c:2863-2931 | Minifying the formatted print gives the unformatted print, byte for byte, if and only if no string that ends in a backslash is followed by white space in the formatted print. |
| MinifiedPrint.TidyPrint | src/cJSON.c:2863-2931 | That holds for every tree in which no string value and no key ends in a backslash; the unformatted print minifies to itself. |
| MinifiedPrint.SpoiltExample | src/cJSON.c:2877-2881 | A tree for which it does not hold. |
| NodeLists.AddItemToArray | src/cJSON.c:1988-2019 | Appending an unlinked item appends to the sequence of children and keeps the list invariant; it fails exactly if the array or the item is missing or they are the same. |
| NodeLists.BothWays | src/cJSON.c:1960-2019 | A list that the operations keep reads the same from both ends: next leads from the first child through all of them to the end, and prev leads from the first child to the last and through all of them back to the first. |
| NodeLists.GetArrayItem | src/cJSON.c:1883-1900 | The child at an index, or none; none without an array. |
| NodeLists.InsertItemInArray | src/cJSON.c:2295-2327 | Inserting acts as insertion at the index, or as appending beyond the end, and keeps the invariant; it fails exactly if the array or the item is missing or the index is negative. |
| NodeLists.DetachItemViaPointer | src/cJSON.c:2219-2253 | Detaching removes just that child, keeps the invariant and leaves the item unlinked; without a parent or an item, or for an item in no list, nothing happens. |
| NodeLists.DetachItemFromArray | src/cJSON.c:2255-2263 | The same by index; an index outside the list or a missing array detaches nothing. |
| NodeLists.ReplaceItemViaPointer | src/cJSON.c:2329-2376 | Replacing puts the new item at the index of the old one and keeps the invariant; it fails exactly if the parent, the item or the replacement is missing. |
| NodeLists.ReplaceItemInArray | src/cJSON.c:2378-2386 | The same by index; it fails exactly if the array or the new item is missing or the index is outside the list. |
| NodeLists.Extend | src/cJSON.c:2597-2613 | A round of the loops of cJSON_CreateIntArray and cJSON_Duplicate_rec adds the new item behind the last one. |
| NodeLists.Close | src/cJSON.c:2615-2617 | At their end the head learns the tail, which establishes the list invariant. |
| NodeLists.CreateIntArray | src/cJSON.c:2582-2620 | A new array with one number item for each number, satisfying the list invariant; none exactly if the count is negative or the numbers are missing. |
| NodeTrees.DuplicateRec | src/cJSON.c:2750-2834 | The copy is made of new items only, satisfies the list invariant and is structurally equal to the source, which is unchanged; it fails exactly beyond the circular limit. |
| NodeTrees.Duplicate | src/cJSON.c:2745-2748 | The same from depth 0; without recursion the copy is a single item. |
| NodeValues.SameValue | src/cJSON.c:2750-2834 | Structurally equal trees stand for the same JSON value. |
| JsonCompare.CompareIntegers | src/cJSON.c:560-564 | On 32-bit integers the comparison with an epsilon is equality. |
| JsonCompare.CloseNumbers | src/cJSON.c:560-564 | Two numbers count as equal if and only if they differ by at most 2^-52 of the size of one of them. |
| JsonCompare.KeysAlike | src/cJSON.c:136-157 | Keys are the same in the mode without case if and only if they have the same length and at each index the same byte or the same letter of A to Z in either case, and in the other mode if and only if they are equal. |
| JsonCompare.FindsFirst | src/cJSON.c:1912-1942 | A search finds a key if and only if it has the letters of the name and none before it does; one that heeds the case goes past no missing key. |
| JsonCompare.CompareSymmetric | src/cJSON.c:3033-3156 | Comparison is symmetric for all trees and both modes. |
| JsonCompare.CompareIsCanonical | src/cJSON.c:3033-3156 | Two trees with integers compare equal if and only if they are the same as recursive maps and in both every member has the value its key has in the map; both modes. |
| JsonCompare.CompareEquivalence | src/cJSON.c:3033-3156 | On trees with integers comparison is transitive, and a tree equals a copy of itself exactly if it is consistent in that sense. |
| JsonCompare.CompareIsEquality | src/cJSON.c:3033-3156 | With keys distinct in the chosen mode comparison is equality of recursive maps. |
| TreeEquality.CompareIsAlike | src/cJSON.c:3033-3156 | Any two trees with keys distinct in the chosen mode compare equal if and only if they are of the same kind with close numbers, equal strings, equal elements at each index, and members of which each has one in the other tree with the letters of its key and an equal value. |
| JsonCompare.OrderDoesNotMatter | src/cJSON.c:3115-3151 | Reordering the members of objects at any depth makes no difference to the comparison with any third tree, repeated keys or not. |
| JsonCompare.TwiceTheSameKey | src/cJSON.c:3115-3151 | An object in which a key occurs twice, in the chosen mode, equals a copy of itself if and only if its two values are equal. |
| NodeCompare.EqualIgnoringCase | src/cJSON.c:136-157 | The loop decides whether the strings have the same length and at each index the same byte or the same letter of A to Z in either case. |
| NodeCompare.GetObjectItem | src/cJSON.c:1912-1942 | The first child whose key matches; a child without a key ends a search that heeds the case and is passed over by one that does not; without an object or a name there is none. |
| NodeCompare.CompareItems | src/cJSON.c:3033-3156 | The comparison of items on the heap is the comparison of their values, or identity. |
| NodeCompare.Compare | src/cJSON.c:3033-3038 | The same with missing items, which equal nothing. |
| NodeCompare.CopyComparesEqual | src/cJSON.c:2750-2834 | A recursive copy of a tree with integers compares equal to its source if and only if the tree is consistent. |
| VarInts.VarIntFromInt | src/data_types.c:7-26 | For every value from 0 to 2^31-1 the loop ends within the five bytes it has, with the bytes of the value. |
| WireNumbers.VarIntBytes | src/data_types.c:7-26 | The bytes of a value, one by one: seven bits each from the lowest on, with 128 added to all but the last. |
| VarInts.VarIntShortest | src/data_types.c:7-26 | No other chained bytes that denote the value are fewer. |
| VarInts.EndsForNonNegative | src/data_types.c:10-21 | Repeated arithmetic shifts get a value below 128, so that the loop ends, if and only if it is not negative. |
| VarInts.BuildsVarInt | src/main.c:44-52 | The resumable fold recovers every value and stops behind its bytes. |
| VarInts.Builds | src/main.c:44-52 | It takes any chained bytes, shortest or not, as the number they denote. |
| VarInts.ReadAgrees | src/packet.c:93-112 | pr_read_varint stops where build_varint stops and reads the same 32 bits, except behind more than five bytes, where it aborts. |
| VarInts.ReadsVarInt | src/packet.c:93-112 | pr_read_varint recovers every value that is not negative and stops behind its bytes. |
| VarInts.PrefixFree | src/data_types.c:7-26 | No encoding is a proper prefix of another. |
| Endian.Swap16Turns | src/endian.c:11-13 | The shifts reverse the two bytes. |
| Endian.Swap32Turns | src/endian.c:15-20 | The shifts and masks reverse the four bytes. |
| Endian.Swap64Turns | src/endian.c:22-31 | The shifts and masks reverse the eight bytes. |
| Endian.WireBytes64 | src/endian.c:41-43 | The bytes in memory of a converted word are in network order on hosts of either kind. |
| Endian.FromWire64 | src/endian.c:53-55 | A word made of received bytes and converted is their number in network order on hosts of either kind. |
| Endian.BigRoundTrip | src/endian.c:33-55 | The number of the bytes of a word is the word. |
| WireNumbers.BigEight | src/endian.c:33-55 | The eight bytes of a word in network order, one by one from the highest on. |
| PacketFields.PackedJoins | src/packet.c:289-297 | The shifts and masks put x, z and y side by side in the word. |
| PacketFields.UnpacksWord | src/packet.c:136-144 | The signed shifts take the three fields out with their signs. |
| PacketFields.PositionBack | src/packet.c:136-144 | A position is read back as it was written if and only if x and z fit 26 bits and y fits 12. |
| PacketFields.FieldReadBack | src/packet.c:46-144 | Whatever follows a field, it is read back up to its last byte; a position as the bits its word has room for, every other field as it was written. |
| PacketFields.FieldAt | src/packet.c:46-144 | Every field is read back as it was written, whatever follows it, exactly unless it is a position that does not fit. |
| WireNumbers.FieldBytes | src/packet.c:191-287 | The bytes of unsigned fields, varints and strings, one by one. |
| WireNumbers.PositionBytes | src/packet.c:289-297 | The word of a position is x modulo 2^26, z modulo 2^26 and y modulo 2^12, side by side from the highest bits on, in network order. |
| PacketFields.FieldsRoundTrip | src/packet.c:46-144 | Any list of fields is read back up to exactly its last byte, and as it was written if and only if every position in it fits. |
| PacketBuffers.PacketBuilder.Extend | src/packet.c:158-163 | There is room for the length asked for; the capacity grows by it or not at all and stays below the high-water mark plus the largest write. |
| PacketBuffers.PacketBuilder.Reset | src/packet.c:165-167 | The contents are empty and the capacity stays. |
| PacketBuffers.PacketBuilder.WriteCopy | src/packet.c:191-195 | The bytes are appended, and the position stays within the capacity. |
| PacketBuffers.PacketBuilder.WriteVarInt | src/packet.c:251-256 | The encoding is appended, with its room reserved twice. |
| PacketBuffers.PacketBuilder.WritePosition | src/packet.c:289-297 | The word of the position is appended in network order. |
| PacketBuffers.PacketBuilder.Write | src/packet.c:191-297 | Every kind of field is appended as its encoding, on hosts of either kind. |
| PacketBuffers.PacketBuilder.WriteAll | src/packet.c:191-297 | A list of fields is appended as their encodings, one after the other. |
| PacketBuffers.PacketBuilder.Finalize | src/packet.c:179-189 | The result is the frame of the contents, which stay. |
| PacketBuffers.PacketReader.ReadVarint | src/packet.c:93-112 | The loop reads what the varint function says and aborts when it says so. |
| PacketBuffers.PacketReader.ReadString | src/packet.c:114-126 | Length and bytes are read, or the reader aborts. |
| PacketBuffers.PacketReader.ReadPosition | src/packet.c:136-144 | The position in the word is read with its signs. |
| PacketBuffers.PacketReader.Read | src/packet.c:46-144 | Every kind of field is read as its decoding, on hosts of either kind. |
| PacketBuffers.PacketReader.ReadAll | src/packet.c:46-144 | Field after field is read as the decoding of the list says, or the reader aborts where it says so. |
| Framing.ChunksJoin | src/main.c:72-136 | Feeding one chunk and then another is feeding them at once. |
| Framing.AnyChunking | src/main.c:72-136 | However a stream is cut into chunks, the outcome is that of the whole stream. |
| Framing.Delivered | src/main.c:99-133 | After any number of bytes exactly those packets have been delivered whose last byte is among them, in order. |
| Framing.DeframingUndoesFraming | src/main.c:72-136 | Under every chunking of concatenated frames the machine delivers exactly the framed packets in their order, and is idle again. |
| PacketStreams.PacketStream.BuildVarint | src/main.c:44-52 | One byte of a length adds its seven bits above the ones before, as a number, and says whether it was the last one. |
| PacketStreams.PacketStream.CopyPayload | src/main.c:99-117 | Taking as many payload bytes as are there is taking them one by one. |
| PacketStreams.PacketStream.ConnectionRead | src/main.c:54-137 | The four-state loop does what the byte machine does, delivers every packet the chunk completes during the call, never ends in the processing state, and stops exactly when an assertion fails. |
| PacketStreams.PacketStream.ReadChunks | src/main.c:54-137 | Call after call the stream becomes what the machine makes of all the chunks. |
| PacketStreams.PacketStream.ReadFrames | src/main.c:54-137 | However the frames of packets are cut into chunks, an idle stream takes them all without a failed assertion, gives exactly their packets to the handler, in their order, and is idle again. |
| Messages.Send | src/packet.c:165-189 | A packet built from an id and fields is the frame of them, whatever the builder was used for before. |
| Messages.Exchange | src/main.c:54-137 | However the bytes of any messages are cut on their way, an idle stream gives exactly their packets to the handler, in their order, and is idle again. |
| Messages.Receive | src/packet.c:46-144 | From the body of such a packet a reader on a host of either kind reads all the fields; they are those that were sent if and only if every position fits. |
| NbtFormat.DocumentRoundTrip | src/packet.c:352-405 | Every encodable document is written without a failed assertion, and its bytes with any suffix give back the document and their own end. |
| NbtFormat.DocumentInjective | src/packet.c:352-405 | Documents with the same bytes are the same. |
| NbtBytes.KindNumbers | src/packet.h:88-102 | Every entry starts with the number of its kind: 10 for a compound, 9 for a list, 8 for a string, 3 for an integer and 1 for a truth value. |
| NbtBytes.ScalarBytes | src/packet.c:312-338 | The bytes of strings, numbers and truth values with the numbers of the format: 8, 3 and 1, then the length of the name in two bytes, the name and the contents. |
| NbtBytes.CompoundBytes | src/packet.c:347-350 | A compound is 10, its name, its entries and 0. |
| NbtBytes.ListBytes | src/packet.c:340-345 | A list is 9, its name, 10 as the kind of its elements, their number in four bytes, and the elements, each of them a compound with its own 10 and without a name. |
| NbtBytes.DocumentBytes | src/packet.c:401-405 | A document is 10, its entries and 0. |
| NbtFormat.PlainDocument | src/packet.c:352-405 | Whatever follows an encodable document, the format's own convention gives back its members if and only if there is no array in it; otherwise it never gives those members, wherever it ends. |
| NbtFormat.NeverPlain | src/packet.c:363-365 | Reading from the tag of a list element as if it were the first member never gives the members of the element. |
| NbtFormat.ListMisread | src/packet.c:363-365 | The smallest document that the format's own convention does not recover, under every suffix. |
| NbtWriter.WriteEntry | src/packet.c:355-398 | Each kind of child is appended as its entry, and null and other arrays end in a failed assertion. |
| NbtWriter.NbtFromJson | src/packet.c:401-405 | The recursion appends exactly the document, for objects, arrays and scalars as roots, or ends in a failed assertion. |
| CommandGraph.FlagBits | src/packet_types.c:79-83 | The flags are packed without overlap. |
| CommandGraph.WriteCommands | src/packet_types.c:72-110 | The nested loops append exactly the text of the graph. |
| CommandGraph.GraphBytes | src/packet_types.c:72-110 | The packet starts with its id, which is 16, then come the number of nodes, the nodes and the index of the root. |
| CommandGraph.KindBytes | src/packet_types.c:92-106 | Names have their length in front, and the parser of an argument comes behind its name. |
| CommandGraph.NodeBytes | src/packet_types.c:79-83 | The first byte of a node is 0, 1 or 2 for its kind plus 4, 8 and 16 for its flags. |
| CommandGraph.GraphRoundTrip | src/packet_types.c:72-110 | A decoder driven by the flags recovers every graph but for the indices of its redirects, and the root index, and consumes exactly its bytes, whatever follows. |
| CommandGraph.SameBytes | src/packet_types.c:72-110 | Two graphs have the same bytes if and only if they differ in nothing but the indices of their redirects. |
| CommandGraph.BytesDetermine | src/packet_types.c:72-110 | The bytes of a graph determine it if and only if it has no redirect. |
| CommandGraph.RedirectLost | src/packet_types.c:82-82 | A graph with a redirect has the bytes of the graphs whose redirect leads elsewhere. |

## Left out

- Numbers are exact: the rounding of doubles, `%1.15g` and `%1.17g`, infinities, NaN, hexadecimal and locale forms of `strtod`; printing is modelled for 32-bit integers. The double comparison is modelled over the reals.
- The grammar lets through some of what the parser lets through beyond RFC 8259: leading zeros of numbers, control bytes in strings, bytes that are no UTF-8, and control bytes as white space. Half of a surrogate pair, which the grammar of RFC 8259 allows and its section 8.2 leaves without a meaning, denotes the three bytes its number would have.
- MinifiedText.MinifiedIsText: for texts in which a literal ends in an escaped backslash it says nothing; when the result is then spoilt is stated for printed trees.
- JsonReader.ParseWithLengthOpts: which position inside the text a rejected text reports is not stated.
- The release of items and buffers, custom allocation hooks, allocation failure, `cJSON_Raw`, references, constant keys and types that are none of the seven are not modelled.
- JsonCompare.CompareIsCanonical: numbers are 32-bit integers, because the comparison with an epsilon is no equivalence on other numbers; for all trees only symmetry is stated.
- NodeCompare.CompareItems: two different items are compared only if their trees share no item, because a value says nothing about sharing.
- NodeCompare.Compare: the same restriction.
- JsonPrinter.PrintBuffer.PrintNumber: the branch for numbers that are no 32-bit integers is not modelled, because it needs floating-point formatting.
- PacketBuffers.PacketReader.ReadString: a negative length ends like a failed assertion; in the original it passes the length test and moves the position back.
- JsonPrinter.PrintBuffer.PrintValue: numbers that are no 32-bit integers and raw items are not modelled.
- PacketStreams.PacketStream.ConnectionRead: a length prefix that does not fit an int or has more than five bytes is undefined in C and excluded; sockets, end of file and the packet handlers are not modelled, a handled packet is appended to a trace.
- VarInts.VarIntFromInt: negative values are excluded, because the loop of the original does not end for them.
- Fields of type i8, i16, i32, bool, f32 and f64 are written and read like the unsigned words that are modelled. The capacity of a builder is an unbounded integer.
- NbtWriter.WriteEntry: numbers are 32-bit integers; others would be written as doubles.
- NbtWriter.NbtFromJson: the same restriction.
- Registry tables, server slots, timers, logging, standard input and the other packet writers would only add easy members.
