# Verification model of the RTU repository

This project models the parts of the repository with the most state and the most
arithmetic, in Dafny, and proves what they promise: the cJSON library, the XXTEA
cipher, the two forms of the Modbus CRC-16, the text codecs of the SQLite shell, the
firmware sender for the 8002, the register map, the sample-stretching loop of the wired
electrical meter and the transmit ring of the serial driver. `dafny verify
dfyconfig.toml` checks all of it.

How the files divide the work:

- `Options.dfy`, `CText.dfy`, `Bits.dfy`: optional values; bytes and C strings (a `Text` is
  what stands before the terminating NUL); exclusive or on integers of any size.
- `JsonSpec.dfy` says what the cJSON parser and printer compute, branch by branch, as
  functions on texts. `JsonRoundTrip.dfy`, `JsonLiteral.dfy`, `JsonMinify.dfy` and
  `JsonComments.dfy` prove the laws of those functions. `JsonGrammar.dfy`, over the numbers of
  `JsonNumeral.dfy` and the string literals of `JsonPieces.dfy`, is the grammar of the texts
  the parser accepts, `JsonAccept.dfy` the proof that it accepts no others, and
  `JsonTight.dfy` what minifying does to these texts and what formatted output looks like.
  `JsonStringBuffers.dfy` and `JsonBuffers.dfy` are the loops over buffers, `JsonNode.dfy`
  the child lists, `JsonTree.dfy` node trees and their copies, `JsonPrint.dfy` and
  `JsonPrinter.dfy` the printer on a node tree, `JsonReread.dfy` what the parser makes of
  its output, and `JsonParser.dfy` the parser that builds a tree.
- `Xxtea.dfy`; `Crc16.dfy` and `Crc16Table.dfy`.
- `Csv.dfy` (the writer and the reader as functions), `CsvRoundTrip.dfy` (their laws),
  `CsvShell.dfy` (the stream and the reader object); `Quoting.dfy`; `DotCommand.dfy` and
  `DotArguments.dfy` (the arguments of a line).
- `Sender8002.dfy` (the protocol as a state machine), `SenderClient.dfy` (the client
  object and its frames).
- `RegisterStore.dfy` (the simple store), `RegisterExternal.dfy` (the external address
  space over it), `RegisterLoader.dfy` (loading the map files), `RegisterMap.dfy` (the
  memory and the register calls).
- `Stretch.dfy`; `UartRing.dfy`.

Conventions:

- Code that works in place is a method over an `array` or a class with the source's
  fields, proved against a function; the laws are then lemmas about the function. Ghost
  parameters and fields name the abstract value a buffer or a node tree holds.
- Machine words are integers with their range in the type and every wrap-around written
  out. The CRC registers are bit-vectors, because there the bits are the point. Where a bit
  operation is a plain division or remainder on the values that occur (the UTF-8 writer, the
  byte order of registers, the shifts of XXTEA, `& (UART_XMIT_SIZE - 1)`) it is written as
  one. Python's `^` is defined on non-negative integers of any size.
- `sum` and the words of the XXTEA array are 32 bits wide, as the source masks them; the
  key is four 32-bit words.
- JSON numbers are exact decimals, mantissa and exponent: the parser model covers signs,
  fractions and exponents without rounding. The printer is modelled for 32-bit integers.
- `parse_string` goes over a literal twice, once to count and once to write. `Outside` is the
  parser's answer where the two passes end at different places, or pass the end of the
  text: a lone backslash at the end, or `\u` whose four characters reach over the end that
  was counted. Where they agree the literal is modelled as the source treats it: one without
  a closing quote is accepted, and so is `\u` before four characters that are not
  hexadecimal digits, quotes and backslashes among them; it writes nothing.
- The grammar of accepted texts is that of RFC 8259 widened by what the parser takes as well:
  any bytes up to 32 as white space, numbers such as `-`, `007` or `1.e`, string literals taken
  apart as the parser does it, and a lone literal left open.

What the proofs found about the code:

- cJSON: a member without a name and a string node without a value are rendered as nothing
  at all, so an object with one nameless null child prints as `{:null}`, which the parser
  refuses (`JsonReread.NamelessNull`). `JsonReread.RereadExactly` says for every tree what
  is read back, and `JsonParser.PrintThenParse` that the value survives exactly if every
  string has a value and every member a name. An array whose only item is such a string
  comes back empty.
- cJSON: the parser takes more than JSON, and `JsonAccept.DocumentsExactly` says exactly what:
  control characters as white space, numbers without digits or with leading zeros, and
  malformed escapes, but no value, comma, colon or bracket may be missing.
- cJSON: a text that is one string literal without its closing quote is accepted. Of all
  the documents that are accepted up to their end it is the only one `cJSON_Minify` must
  not be given (`JsonBuffers.DocumentClosed`); the smallest is a single quote
  (`JsonBuffers.QuoteLeftOpen`).
- CSV: a separator of 128 or more is compared as a negative number where `char` is
  signed, and then never recognised; the separator 0xFF then equals EOF, and the import
  loop does not end (`Csv.ImportEnds`). `CsvRoundTrip.TableRoundTrip` says exactly when a
  table survives. A row with too few fields loses its last field as well: NULLs are bound
  from the column just read, although the message says only the rest is filled
  (`CsvRoundTrip.RaggedRoundTrip`, `CsvRoundTrip.RowBack`).
- The sender never moves on from an empty image (`Sender8002.EmptyImage`); every other
  image can be sent to its checksum (`Sender8002.Completes`).
- A read-only register inside an externally written range shifts the words that follow
  it; `RegisterExternal.WrittenValue` gives the word each address receives. Every write of
  a range reads back exactly if all its addresses are writable and no two stand for one
  register (`RegisterExternal.ReadsBackExactly`).
- Recorded data are written into an external row whether its addresses are mapped or not, and
  can overwrite the register number of a mapped one;
  `RegisterExternal.DataKeepsMapExactly` says when the map survives.
- A burst of 17 bits goes undetected by the CRC exactly if it is the generator
  (`Crc16.LongBurst`), which happens (`Crc16.LongBurstMissed`), so the 16-bit bound of
  `Crc16.BurstDetected` is tight.

## Model

| member | source | states |
|---|---|---|
| JsonRoundTrip.StringRoundTrip | cJSON/cJSON.c:154-248 | the string loop of the parser, on what the printer escaped, gives any NUL-free string back and stops after the quote |
| JsonRoundTrip.PrintStringRoundTrip | cJSON/cJSON.c:154-248 | the same for the whole literal, quotes included |
| JsonRoundTrip.IntRoundTrip | cJSON/cJSON.c:96-138 | a printed integer is read back exactly, if the next character cannot extend a number |
| JsonRoundTrip.ValueRoundTrip | cJSON/cJSON.c:287-507 | for every tree, depth and mode, parse_value on the rendered text rebuilds the tree and stops exactly at its end |
| JsonRoundTrip.ArrayRoundTrip | cJSON/cJSON.c:320-403 | the array case of the round trip |
| JsonRoundTrip.ObjectRoundTrip | cJSON/cJSON.c:406-507 | the object case of the round trip, the empty object's own layout included |
| JsonRoundTrip.DocumentRoundTrip | cJSON/cJSON.c:264-284 | cJSON_Parse after cJSON_Print or cJSON_PrintUnformatted gives the value back and uses up the whole text |
| JsonLiteral.Utf8Decodes | cJSON/cJSON.c:154-212 | the bytes the parser writes for a code point decode, by section 3 of RFC 3629, to that code point |
| JsonLiteral.SurrogateStep | cJSON/cJSON.c:184-200 | two escapes that form a surrogate pair become the one code point they denote |
| JsonLiteral.CharParsed | cJSON/cJSON.c:166-204 | each other character of a literal (plain UTF-8, short escape, \u escape) becomes the UTF-8 form of what it denotes |
| JsonLiteral.LiteralParsed | cJSON/cJSON.c:154-212 | every literal of section 7 of RFC 8259 without \u0000 and unpaired surrogates becomes the UTF-8 form of the text it denotes |
| JsonLiteral.LiteralDecoded | cJSON/cJSON.c:154-212 | the same for parse_string as a whole, with the place where it stops |
| JsonSpec.HexDigits | cJSON/cJSON.c:140-152 | the characters taken as hexadecimal digits, in both cases, and their values |
| JsonGrammar.NumeralParsed | cJSON/cJSON.c:96-115 | every number of the grammar, those of section 6 of RFC 8259 among them, is read as the decimal its digits denote, scaled by its exponent and fraction, and the parser stops where it ends |
| JsonNumeral.NumeralFound | cJSON/cJSON.c:96-115 | whatever parse_number takes is the text of a number of the grammar, read as what that number denotes and up to its end |
| JsonPieces.LiteralRead | cJSON/cJSON.c:154-212 | every string literal of the widened grammar, wrong escapes and unpaired surrogates included, is read as what its pieces stand for |
| JsonPieces.LiteralFound | cJSON/cJSON.c:154-212 | whatever parse_string takes is the text of such a literal, with the value of its pieces |
| JsonGrammar.NodeParsed | cJSON/cJSON.c:287-439 | every value of the grammar, whatever white space, number forms and escapes it uses, is read as the value it denotes, and the parser stops at its end |
| JsonGrammar.TextParsed | cJSON/cJSON.c:264-596 | every text of the grammar is accepted as the value it denotes |
| JsonGrammar.StandardDocument | cJSON/cJSON.c:264-439 | the JSON texts of RFC 8259, without \u0000 and unpaired surrogates in their literals, are texts of the grammar |
| JsonGrammar.TextMinified | cJSON/cJSON.c:581-596 | a text of the grammar without a literal left open keeps its value under cJSON_Minify, and a second call changes nothing |
| JsonAccept.AcceptedExactly | cJSON/cJSON.c:287-439 | parse_value answers with a value and an end exactly if the text up to that end is a text of the grammar that denotes the value and may end there; all other texts are refused |
| JsonAccept.DocumentsExactly | cJSON/cJSON.c:264-278 | cJSON_ParseWithOpts with the check for trailing text accepts exactly the texts of the grammar, as the values they denote |
| JsonTight.MinifiedIsTight | cJSON/cJSON.c:581-596 | cJSON_Minify takes blanks, tabs, carriage returns and line feeds out of every place between the tokens of a text and leaves everything else |
| JsonTight.StandardMinified | cJSON/cJSON.c:581-596 | a JSON text of the standard minifies to the text of the same tree with no white space at all between its tokens |
| JsonTight.FormattedMinified | cJSON/cJSON.c:302-596 | minifying what cJSON_Print writes gives what cJSON_PrintUnformatted writes |
| JsonTight.BreakBytes | cJSON/cJSON.c:494-494 | a new line of formatted output is a line feed and one tab for each level |
| JsonTight.ContainerLayout | cJSON/cJSON.c:359-506 | the brackets and braces around items and members, and those of empty arrays and objects |
| JsonTight.ItemLayout | cJSON/cJSON.c:391-402 | the items of an array stand in one line, with a comma and in formatted mode a space between them |
| JsonTight.MemberLayout | cJSON/cJSON.c:490-506 | each member of an object stands in an indented line of its own in formatted mode, with a tab behind the colon |
| JsonTight.EscapesPrinted | cJSON/cJSON.c:227-241 | which characters of a string are printed as they are, behind a backslash, or as a letter |
| JsonTight.ControlPrinted | cJSON/cJSON.c:242-242 | every other control character is printed as \u00 and two digits in lower case |
| JsonTight.NoLeadingZero | cJSON/cJSON.c:118-125 | a printed integer has no leading zero and a minus sign only if it is negative |
| JsonMinify.MinifyIdempotent | cJSON/cJSON.c:581-596 | on text without comments and open literals a second cJSON_Minify changes nothing |
| JsonMinify.ValueMinified | cJSON/cJSON.c:581-596 | the value parsed from such text is parsed from the minified text, and the parser stops at the corresponding place |
| JsonMinify.DocumentMinified | cJSON/cJSON.c:581-596 | every document the parser accepts to its end, except a lone literal left open, is free of comments, keeps its value under cJSON_Minify, and is not changed by a second call; an open literal is the only exception |
| JsonComments.CommentsDropped | cJSON/cJSON.c:581-596 | line and block comments behind pieces of clean text leave the minified text as it is without them |
| JsonComments.CommentedMinified | cJSON/cJSON.c:581-596 | an accepted document with comments inserted between its tokens minifies to a text of the same value, which a second call leaves alone |
| JsonComments.CommentedClosed | cJSON/cJSON.c:581-596 | a commented document meets the precondition of the in-place loop |
| JsonComments.CommentedText | cJSON/cJSON.c:581-596 | a text of the grammar with comments in it, and without a literal left open, minifies to a text of the value it denotes |
| JsonBuffers.MinifyInPlace | cJSON/cJSON.c:581-596 | the in-place loop leaves exactly the minified text, NUL-terminated, and touches nothing behind the old terminator |
| JsonBuffers.MinifyTurn | cJSON/cJSON.c:584-594 | one turn of the loop, whichever branch it takes, keeps what is written plus what is still to be minified, and the write cursor behind the read cursor |
| JsonBuffers.CopyString | cJSON/cJSON.c:592-592 | the string branch copies a literal, escaped characters in pairs |
| JsonBuffers.CopyChar | cJSON/cJSON.c:592-592 | one character of a literal is copied, with its backslash if it has one |
| JsonBuffers.SkipLine | cJSON/cJSON.c:590-590 | the inner loop of the line comment branch stops at the line feed or the end |
| JsonBuffers.SkipBlock | cJSON/cJSON.c:591-591 | the inner loop of the block comment branch stops behind the end of the comment |
| JsonBuffers.CleanIsClosed | cJSON/cJSON.c:581-596 | text without comments and open literals meets the loop's precondition |
| JsonBuffers.DocumentClosed | cJSON/cJSON.c:581-596 | a document that is accepted to its end meets the loop's precondition exactly if it is not a literal left open |
| JsonBuffers.QuoteLeftOpen | cJSON/cJSON.c:154-212 | a single quote is accepted as the empty string and does not meet it |
| JsonStringBuffers.CountEscaped | cJSON/cJSON.c:220-220 | the counting pass counts exactly the escaped characters |
| JsonStringBuffers.PrintStringPtr | cJSON/cJSON.c:215-248 | for a null pointer an empty string; otherwise the buffer that was counted is filled exactly: the literal, its terminator and no byte more |
| JsonStringBuffers.WriteEscaped | cJSON/cJSON.c:227-245 | one character of the writing pass, escaped if it must be |
| JsonStringBuffers.WrittenFits | cJSON/cJSON.c:160-206 | the writing pass never writes more bytes than the counting pass counted, even where the two take the characters of an escape apart differently and one is a character ahead of the other |
| JsonStringBuffers.BodyFits | cJSON/cJSON.c:160-207 | so the decoded string fits the bytes that were reserved |
| JsonStringBuffers.WriteBody | cJSON/cJSON.c:165-205 | the writing pass, up to the quote or the end of the text |
| JsonStringBuffers.CountBody | cJSON/cJSON.c:160-160 | the counting pass of parse_string |
| JsonStringBuffers.WriteUtf8 | cJSON/cJSON.c:192-200 | the backwards fall-through over one to four bytes writes the UTF-8 form |
| JsonStringBuffers.DecodeUnicode | cJSON/cJSON.c:179-201 | the \u branch: digits, surrogates, skipped invalid pairs |
| JsonStringBuffers.DecodeChar | cJSON/cJSON.c:168-204 | one turn of the writing pass decodes one character or escape and moves both cursors past it |
| JsonStringBuffers.ParseStringAt | cJSON/cJSON.c:154-212 | parse_string's buffer receives the decoded text and its terminator, and every write lies inside it |
| JsonNode.AddItemToArray | cJSON/cJSON.c:515-520 | appends, and the list stays well formed; a null item changes nothing |
| JsonNode.DetachItemFromArray | cJSON/cJSON.c:525-526 | removes and unlinks the node at the index, or answers null, and the list stays well formed |
| JsonNode.ReplaceItemInArray | cJSON/cJSON.c:532-534 | puts the new node at the index, unlinks the old one, and the list stays well formed |
| JsonNode.RunListOps | cJSON/cJSON.c:515-534 | every run of the three operations, each on an unlinked node outside the list (new, or detached before), acts on the abstract sequence as append, remove-at and update-at |
| JsonTree.Duplicate | cJSON/cJSON.c:554-579 | a recursive copy equals the original with reference flags cleared, is well linked and made only of new nodes, and no existing node changes |
| JsonTree.ReferenceCleared | cJSON/cJSON.c:563-563 | the reference flag, bit 8, is cleared in a copied node and no other bit of its type |
| JsonTree.DuplicateKids | cJSON/cJSON.c:569-577 | the child loop copies the children in order under the new node |
| JsonTree.AppendChild | cJSON/cJSON.c:574-575 | linking a new last child keeps the child lists well linked at every level |
| JsonPrinter.JoinedItemsFit | cJSON/cJSON.c:348-403 | composing an array never needs more than the lengths added up for it |
| JsonPrinter.ComposeArray | cJSON/cJSON.c:391-402 | the composing loop stays inside the reserved buffer and writes the joined entries |
| JsonPrinter.PrintArray | cJSON/cJSON.c:348-403 | print_array renders the array of its node tree, items without a string as nothing, inside the length it computed |
| JsonPrinter.PrintEntries | cJSON/cJSON.c:368-376 | the loop that renders the children and adds up their lengths |
| JsonReread.JoinedItemsPrint | cJSON/cJSON.c:391-402 | the joined entries are the rendered items |
| JsonPrinter.JoinedMembersFit | cJSON/cJSON.c:442-507 | composing an object never needs more than the lengths added up for it |
| JsonPrinter.ComposeObject | cJSON/cJSON.c:490-506 | the composing loop stays inside the reserved buffer and writes the joined members |
| JsonPrinter.PrintEmptyObject | cJSON/cJSON.c:450-459 | the empty object's own reservation fits its layout |
| JsonPrinter.PrintObject | cJSON/cJSON.c:442-507 | print_object renders the object of its node tree, missing names as nothing, inside the length it computed |
| JsonPrinter.PrintMembers | cJSON/cJSON.c:468-476 | the loop that renders names and values and adds up their lengths |
| JsonPrinter.ComposeMember | cJSON/cJSON.c:494-499 | one member: tabs, name, colon, value, comma and line feed as the mode asks |
| JsonReread.JoinedMembersPrint | cJSON/cJSON.c:490-506 | the joined members are the rendered object |
| JsonPrinter.PrintValue | cJSON/cJSON.c:302-317 | print_value renders its node tree in a new buffer; JsonReread says which value the text stands for |
| JsonPrinter.IntTextFits | cJSON/cJSON.c:118-125 | a 32-bit integer fits the 21 bytes reserved for it |
| JsonReread.NodePrints | cJSON/cJSON.c:302-507 | where a tree can be read back at all, its text is the rendering of the value that is read back |
| JsonReread.NodeReread | cJSON/cJSON.c:215-507 | parsing a printed tree, at any depth, in either mode and before anything that can follow a value, gives its legible value and stops at its end, or fails exactly if a name or string is missing |
| JsonReread.RereadExactly | cJSON/cJSON.c:215-507 | the same for a whole printed document, with and without the check for trailing text |
| JsonReread.NamedExactly | cJSON/cJSON.c:215-219 | what is read back is the value of the tree exactly if every string node has a value and every member a name |
| JsonReread.NamelessMember | cJSON/cJSON.c:215-417 | an object with a nameless child prints as a text the parser refuses |
| JsonReread.NamelessNull | cJSON/cJSON.c:215-417 | the smallest such object and its text |
| JsonParser.SkipFrom | cJSON/cJSON.c:261-261 | skip stops at the first character above 32 or at the end |
| JsonParser.ParseNumberAt | cJSON/cJSON.c:96-115 | the digit loops store the exact decimal and its integer part |
| JsonParser.TruncatesTowardsZero | cJSON/cJSON.c:112-114 | the integer field of a number is the decimal itself or the next integer towards zero |
| JsonParser.ParseStringInto | cJSON/cJSON.c:154-212 | parse_string stores the decoded text in the node |
| JsonParser.ParseValue | cJSON/cJSON.c:287-299 | parse_value fills the node and builds new, well-linked children for exactly the texts and values of JsonSpec.ParseValue, which are those of the grammar (JsonAccept.AcceptedExactly), and a true node has the number 1 |
| JsonParser.ParseSpacedValue | cJSON/cJSON.c:331-339 | a value between white space, as both child loops parse it |
| JsonParser.ParseArray | cJSON/cJSON.c:320-345 | parse_array, with the child loop that links each new item before parsing into it |
| JsonParser.ParseItems | cJSON/cJSON.c:329-344 | the child loop of parse_array for every number of items |
| JsonParser.ParseItem | cJSON/cJSON.c:335-340 | one child: linked first, then filled by parse_value, and the list stays well linked |
| JsonParser.ParseObject | cJSON/cJSON.c:406-439 | parse_object, with the child loop over names and values |
| JsonParser.ParseName | cJSON/cJSON.c:417-420 | the name is parsed as a string and moved to the name field, then the colon is required |
| JsonParser.ParseMembers | cJSON/cJSON.c:415-438 | the child loop of parse_object for every number of members |
| JsonParser.ParseMember | cJSON/cJSON.c:425-435 | one child: linked first, then named and filled, and the list stays well linked |
| JsonParser.ParseWithOpts | cJSON/cJSON.c:264-278 | a new tree for exactly the accepted texts, in which no string and no member name is missing and both fields of a number agree, with the end position, under both settings of the trailing-text check |
| JsonParser.PrintThenParse | cJSON/cJSON.c:264-507 | printing a node tree and parsing the text builds a new well-linked tree exactly if the tree is legible, of the same value exactly if no name or string is missing, and leaves the printed one alone |
| JsonParser.ParsePrintParse | cJSON/cJSON.c:264-507 | parsing an accepted text whose value can be printed, printing the tree and parsing that text gives the same value again |
| Xxtea.MixInverse | tools/xxtea.py:7-7 | the update of a word is undone by the opposite update with the same sum, either way round |
| Xxtea.MixMasked | tools/xxtea.py:7-8 | the mixing term as the source computes it, on unbounded integers, masked in the end, is the term computed on 32-bit words |
| Xxtea.UpdatedWord | tools/xxtea.py:7-38 | each update adds to a word, or takes from it, the source's mixing term of its neighbours on the ring, modulo 2^32 |
| Xxtea.CipherWord | tools/xxtea.py:13-26 | the words after a round, each from the word before it in the ring as it has become and the one behind it as it was, with the mixing term and the sum written out |
| Xxtea.RoundInverse | tools/xxtea.py:16-39 | a decryption round undoes an encryption round with the same sum, and the other way round |
| Xxtea.CipherInverse | tools/xxtea.py:6-43 | for any number of rounds decryption undoes encryption and encryption undoes decryption |
| Xxtea.RoundSumBack | tools/xxtea.py:31-40 | the decryption sum retraces the encryption sums |
| Xxtea.RoundSumIsProduct | tools/xxtea.py:18-30 | the masked product that decryption starts from is the sum encryption ends with |
| Xxtea.RoundSumNonzero | tools/xxtea.py:31-31 | no sum of the countdown is zero before its end, because DELTA is odd |
| Xxtea.EncryptRound | tools/xxtea.py:16-25 | one in-place encryption round |
| Xxtea.DecryptRound | tools/xxtea.py:32-39 | one in-place decryption round |
| Xxtea.EncryptWords | tools/xxtea.py:13-26 | the loop over the rounds encrypts |
| Xxtea.DecryptWords | tools/xxtea.py:27-41 | the loop that tests only the sum ends after exactly 6 + 52/n rounds and decrypts |
| Xxtea.Btea | tools/xxtea.py:6-43 | all three branches; words beyond the first n are left alone |
| Xxtea.BteaTwice | tools/xxtea.py:6-43 | btea(-n) after btea(n), and btea(n) after btea(-n), restore every array of n >= 2 words |
| Crc16.BitwiseCrc16 | tools/demo_modbus_rtu.py:18-27 | the nested loops compute the register of the abstract CRC, low byte first |
| Crc16.CheckValue | tools/demo_modbus_rtu.py:18-27 | the register starts at 0xFFFF, and the nine digits 123456789 have the published check value 0x4B37 |
| Crc16.StepsXor | tools/demo_modbus_rtu.py:23-26 | bit steps are linear over exclusive or |
| Crc16.RunIsFeed | tools/demo_modbus_rtu.py:21-26 | the byte-wise loop is feeding the message bit by bit, lowest bit first |
| Crc16.FeedParity | tools/demo_modbus_rtu.py:21-26 | the register keeps the parity of the bits that were fed to it |
| Crc16.FeedInjective | tools/demo_modbus_rtu.py:21-26 | equal registers after equal bits were equal before them |
| Crc16.WindowDetermined | tools/demo_modbus_rtu.py:21-26 | two windows of at most 16 bits that lead from one register to one register are equal |
| Crc16.BurstDetected | tools/demo_modbus_rtu.py:18-27 | any burst of at most 16 transmitted bits, at any position, changes the checksum |
| Crc16.OddErrorsDetected | tools/demo_modbus_rtu.py:18-27 | an odd number of wrong bits, wherever they are, changes the checksum |
| Crc16.LongBurst | tools/demo_modbus_rtu.py:18-27 | a burst of 17 transmitted bits, at any position, goes undetected exactly if the two windows differ in the generator's bits |
| Crc16.LongBurstMissed | tools/demo_modbus_rtu.py:18-27 | two messages that differ in the generator's 17 bits and nowhere else check the same |
| Crc16.AdjacentBytesDetected | tools/demo_modbus_rtu.py:18-27 | messages that differ only in one byte or two adjacent bytes have different checksums |
| Crc16.FrameCheck | tools/demo_modbus_rtu.py:18-27 | a frame checks to zero exactly if its last two bytes are the message's checksum, low byte first |
| Crc16.OwnChecksum | tools/demo_modbus_rtu.py:18-27 | appending a message's own checksum drives the register to zero |
| Crc16Table.EntryOk | tools/rtu_crc.py:8-52 | all 256 table pairs are eight bit steps of their index |
| Crc16Table.TableStep | tools/rtu_crc.py:60-63 | one table step on the register halves is one byte of the bitwise form |
| Crc16Table.TableCrc16 | tools/rtu_crc.py:54-65 | for every message the table loop computes the byte-swapped bitwise checksum |
| Crc16Table.SwappedBytes | tools/rtu_crc.py:65-65 | so its bytes, high first, are the list the bitwise form returns |
| Csv.FieldRoundTrip | sqlite/shell.c:1951-2009 | whatever a field contains, and whether it was quoted or not, it is read back from what was written for it, before a separator, before either line end and at the end of the input |
| Csv.QuotedFieldBack | sqlite/shell.c:1963-1995 | the state machine with pc and ppc undoes the doubled quotes and drops only the closing quote and a carriage return, before a separator, a line end and the end of the input |
| Csv.PlainFieldBack | sqlite/shell.c:1996-2006 | an unquoted field comes back without the carriage return of its line end |
| Csv.UnescapedKept | sqlite/shell.c:1963-1995 | a single double quote inside a quoted field is kept if the character after it does not close the field |
| Csv.LeftOpen | sqlite/shell.c:1963-1995 | a quoted field whose closing quote is missing is read to the end of the input |
| Csv.WrittenBare | sqlite/shell.c:642-682 | a field is written without quotes exactly if it is not empty and holds only visible ASCII other than the two quotes and the separator |
| Csv.CutAtNul | sqlite/shell.c:2680-2680 | what is bound for a field ends at its first NUL |
| Csv.ImportEnds | sqlite/shell.c:2675-2706 | the row loop ends for a file exactly if the separator is not EOF, which 0xFF is where char is signed |
| CsvRoundTrip.RowBack | sqlite/shell.c:2675-2688 | the column loop on a written row of any length, exact, too long or too short, before a line end or the end of the input |
| CsvRoundTrip.ExtrasSkipped | sqlite/shell.c:2689-2697 | fields beyond the last column are read to the end of their row |
| CsvRoundTrip.TableBack | sqlite/shell.c:2675-2706 | every written table is imported row by row, each row fitted to the columns, also if its last line end is missing |
| CsvRoundTrip.LastEndMissing | sqlite/shell.c:871-876 | what is meant by a table whose last line end is missing |
| CsvRoundTrip.NoSeparatorFound | sqlite/shell.c:2675-2688 | with a separator no character equals, every imported row of two or more columns is all NULL |
| CsvRoundTrip.TableRoundTrip | sqlite/shell.c:2675-2706 | a rectangular table comes back from write and import, also if its last line end is missing, exactly if its separator is compared unsigned, or is not EOF and was never written |
| CsvRoundTrip.RaggedRoundTrip | sqlite/shell.c:2675-2706 | a table of rows of any lengths, also without its last line end, comes back exactly if every row has as many fields as the table has columns |
| CsvShell.CsvOutput.OutputCsv | sqlite/shell.c:667-696 | the scan for characters that need quotes, the quoted and the plain branch, the separator |
| CsvShell.CsvOutput.OutputQuoted | sqlite/shell.c:683-688 | the quoted branch doubles every double quote |
| CsvShell.CsvOutput.OutputRow | sqlite/shell.c:871-876 | a result row: its fields with separators between them, and the line end |
| CsvShell.CsvReader.AppendChar | sqlite/shell.c:1927-1937 | the buffer grows when needed, keeps its contents and always has room for a terminator |
| CsvShell.CsvReader.ReadOneField | sqlite/shell.c:1951-2009 | the reader object delivers the field, the terminator and the position of the abstract reader, and its line number counts the line feeds consumed |
| CsvShell.CsvReader.ReadQuoted | sqlite/shell.c:1963-1995 | the quoted branch with its two-character memory; the closing quote it searches backwards for is always there |
| CsvShell.CsvReader.ReadUnquoted | sqlite/shell.c:1996-2006 | the unquoted branch up to a separator, a line feed or the end |
| CsvShell.CsvReader.ChopToQuote | sqlite/shell.c:1978-1978 | the field is cut back to its last double quote |
| CsvShell.CsvReader.ReadColumns | sqlite/shell.c:2677-2688 | the column loop with the parameters it binds |
| CsvShell.CsvReader.ReadColumn | sqlite/shell.c:2678-2687 | one turn of the column loop: end of input, bound field, or NULLs for the rest of a short row |
| CsvShell.CsvReader.BindNulls | sqlite/shell.c:2686-2686 | NULL for every parameter from the given number on |
| CsvShell.CsvReader.SkipFields | sqlite/shell.c:2690-2693 | fields are read until one does not end at a separator |
| CsvShell.CsvReader.Import | sqlite/shell.c:2675-2706 | the row loop inserts exactly the rows of the abstract import and ends at the end of the input |
| CsvShell.ExportThenImport | sqlite/shell.c:667-696 | writing any rectangular table of NUL-free strings and importing it gives the same rows and fields |
| Quoting.OutputCString | sqlite/shell.c:575-601 | the characters written for a string between double quotes |
| Quoting.CStringRoundTrip | sqlite/shell.c:575-601 | the body written for any NUL-free string has no dangling escape and resolves to the string |
| Quoting.EscapeUndone | sqlite/shell.c:579-597 | each escape resolves to its character whatever follows, a digit included |
| Quoting.EscapesWritten | sqlite/shell.c:579-592 | which characters output_c_string writes as they are, behind a backslash, or as a letter |
| Quoting.OctalWritten | sqlite/shell.c:593-595 | every other character is written as three octal digits of its value |
| Quoting.LettersResolved | sqlite/shell.c:1760-1767 | what a backslash before a character that is not an octal digit stands for |
| Quoting.ResolveBackslashes | sqlite/shell.c:1753-1783 | in place, the string becomes its resolved form, terminated, and nothing outside it changes |
| Quoting.ReadCharacter | sqlite/shell.c:1757-1779 | one character or escape of the loop |
| Quoting.ReadOctal | sqlite/shell.c:1768-1777 | one to three octal digits, kept in a character |
| Quoting.OutputQuotedString | sqlite/shell.c:545-570 | the chunked loop writes the string with every single quote doubled |
| Quoting.SqlRoundTrip | sqlite/shell.c:542-570 | the literal that is written denotes the string, wherever it is followed by something else than a quote |
| DotCommand.BodyScanned | sqlite/shell.c:2257-2263 | the scan for the closing quote of an argument skips exactly a body written by output_c_string |
| DotCommand.ScanQuoted | sqlite/shell.c:2260-2263 | the scan for the closing quote |
| DotCommand.ScanBare | sqlite/shell.c:2270-2270 | the scan for the end of a bare argument |
| DotArguments.ArgumentsFound | sqlite/shell.c:2252-2274 | a line of bare, single-quoted and double-quoted arguments splits into these arguments, in order and up to the room for them; all but the single-quoted have their backslashes resolved |
| DotCommand.OutputTclRow | sqlite/shell.c:852-857 | the loop that writes a row in Tcl mode |
| DotCommand.TclRowRoundTrip | sqlite/shell.c:852-857 | a row written in Tcl mode, with its line feed, and read as the arguments of a dot command gives the row back |
| DotCommand.SplitToken | sqlite/shell.c:2256-2273 | one turn of the argument loop: cut, resolve, and leave the rest of the line alone |
| DotCommand.SplitLine | sqlite/shell.c:2252-2274 | after the loop every argument stands in the line as a C string, resolved, in order, at most 50 of them |
| Sender8002.EncodedTwice | tools/rtu8002_upgrade.py:242-243 | the payload encoding undoes itself |
| Sender8002.EncodedBytes | tools/rtu8002_upgrade.py:242-243 | the first byte of a payload is sent as it is, every other one mixed with the first byte and 0x55 |
| Sender8002.ReadIsPadded | tools/rtu8002_upgrade.py:232-235 | the block read with its zeros is the block of the zero-padded image |
| Sender8002.AcksExactly | tools/rtu8002_upgrade.py:203-216 | what moves a client on is an acknowledgement with the expected flow number and a flag of 0, 1 or 2 while the image is not finished, and what ends its upgrade one with the flag 3; a timeout never does |
| Sender8002.StepAfter | tools/rtu8002_upgrade.py:200-243 | one acknowledgement or timeout, seen from the number of matching acknowledgements so far |
| Sender8002.RunReaches | tools/rtu8002_upgrade.py:194-247 | over every run the client is where the number of matching acknowledgements puts it, so every block counts once despite retransmissions |
| Sender8002.RunInvariant | tools/rtu8002_upgrade.py:194-247 | flow numbers stay in 1..0xEF, the position is a whole block, and both sums cover exactly what lies before it |
| Sender8002.XorSumFits | tools/rtu8002_upgrade.py:239-240 | the second sum stays within 16 bits |
| Sender8002.XorSumLanes | tools/rtu8002_upgrade.py:239-240 | the low byte of the second sum is the exclusive or of the bytes at even positions, the high byte that of the others |
| Sender8002.ChecksumExactly | tools/rtu8002_upgrade.py:203-230 | the checksum packet is sent exactly from the (blocks+1)-th matching acknowledgement on, with both sums of the padded image, low bytes first |
| Sender8002.PacketSent | tools/rtu8002_upgrade.py:194-247 | every packet, by the number n of matching acknowledgements: the start packet for none, then the n-th block, then the checksum packet; the flow number is 1 + n % 239 |
| Sender8002.Silent | tools/rtu8002_upgrade.py:216-223 | an event is answered with no packet exactly if the upgrade is over after it |
| Sender8002.EmptyImage | tools/rtu8002_upgrade.py:203-226 | for an empty image only the empty start packet is ever sent |
| Sender8002.EveryBlockReached | tools/rtu8002_upgrade.py:200-243 | for an image that is not empty, matching acknowledgements reach every block and then the checksum packet |
| Sender8002.Completes | tools/rtu8002_upgrade.py:200-243 | some run reaches the checksum packet exactly if the image is not empty |
| Sender8002.StaleRepeats | tools/rtu8002_upgrade.py:200-265 | a stale acknowledgement or timeout changes nothing and repeats the last packet |
| Sender8002.BlocksSent | tools/rtu8002_upgrade.py:231-247 | every block up to the one reached has been sent with the bytes of the padded image |
| SenderClient.FrameChecks | tools/rtu8002_upgrade.py:246-264 | the length field counts the bytes after it and those bytes sum to 0x55 modulo 256 |
| SenderClient.FrameFields | tools/rtu8002_upgrade.py:246-264 | start byte, length, flow number, id, device and sub type, command, four bytes 0xFF, lengths, payload and payload sum stand where the frame layout puts them, numbers with their low byte first |
| Bits.XorBit | tools/rtu8002_upgrade.py:240-243 | Python's exclusive or, bit by bit |
| SenderClient.Client.Advance | tools/rtu8002_upgrade.py:203-223 | the acknowledgement branches on the client's fields |
| SenderClient.Client.CountBlock | tools/rtu8002_upgrade.py:236-240 | both summing loops over a block |
| SenderClient.Client.ImageData | tools/rtu8002_upgrade.py:225-243 | the data to send, counted only if it is sent for the first time |
| SenderClient.Client.SndImageData | tools/rtu8002_upgrade.py:194-275 | one call moves the client one step along its history and sends the frame of the packet that answers it |
| RegisterStore.PutValue | data/map.c:1167-1218 | a write changes exactly the written registers: those of the well, and in another well those that both keep in flash 1 |
| RegisterStore.PutThenGet | data/map.c:1035-1218 | reading back what was written to a well gives it back |
| RegisterStore.OtherWellsUntouched | data/map.c:1167-1218 | without flash 1 registers in the range no other well sees a write |
| RegisterMap.RegisterMap.ZigbeeRead | data/map.c:1035-1075 | refuses bad arguments; otherwise reads the values of the store |
| RegisterMap.RegisterMap.ZigbeeWrite | data/map.c:1167-1218 | refuses bad arguments; otherwise the memory holds the store after the write |
| RegisterMap.RegisterMap.WriteOne | data/map.c:1185-1213 | one register of a write reaches its cell, in RAM and in flash |
| RegisterMap.RegisterMap.Calls | data/map.c:1035-1218 | every run of reads and writes answers as the simple store does |
| RegisterExternal.WriteKeepsMap | data/map.c:1286-1305 | an external write never changes which register an address stands for |
| RegisterExternal.WrittenValue | data/map.c:1286-1305 | what every address holds after an external write: the word of the last writable address of the range that stands for the same place, read-only registers and the words they do not use up included, or what was there |
| RegisterExternal.WordWritten | data/map.c:1286-1305 | a writable address holds, if no later address of the range stands for its register, the word of the buffer that is as far in as there are writable addresses before it, its bytes exchanged exactly for big_l |
| RegisterExternal.RegisterKept | data/map.c:1295-1303 | no external write changes a register of the well that is not marked read-write |
| RegisterExternal.OtherWellKept | data/map.c:1268-1307 | another well sees an external write only in writable flash 1 registers that both keep there |
| RegisterExternal.ReadBack | data/map.c:1227-1307 | a writable range whose registers are distinct reads back what was written in the same byte order |
| RegisterExternal.ReadsBackExactly | data/map.c:1227-1307 | every write of a range reads back in the same byte order exactly if all its mapped addresses stand for read-write registers and no two for the same one |
| RegisterExternal.RecordedAt | data/map.c:1327-1339 | each recorded word lands behind the recorded words before it |
| RegisterExternal.DataPacked | data/map.c:1327-1339 | the word of a recorded register lies behind as many words as there are recorded registers before it, its bytes exchanged exactly for big_l, and the row around the data is as it was |
| RegisterExternal.DataKeepsMapExactly | data/map.c:1327-1339 | recorded data of a length leave every mapped address its register, whatever they are, exactly if no mapped address lies where they are packed |
| RegisterMap.RegisterMap.ModbusRead | data/map.c:1227-1259 | every address of the range through the map: the value of its register where it is mapped, else the word of the row, with the two bytes exchanged exactly for big_l; the exact conditions of a refusal |
| RegisterMap.RegisterMap.ModbusReadOne | data/map.c:1241-1248 | one address of an external read, through the map or from the row |
| RegisterMap.RegisterMap.WordFrom | data/map.c:1287-1291 | the word both write functions take from the buffer, its bytes exchanged exactly for big_l |
| RegisterMap.RegisterMap.ModbusWrite | data/map.c:1268-1307 | the loop with its skipped buffer advance does what the abstract write does (RegisterExternal.WordWritten says which word an address then holds); the exact conditions of a refusal |
| RegisterMap.RegisterMap.ModbusWriteOne | data/map.c:1292-1304 | one address of an external write, and whether it used its word |
| RegisterMap.RegisterMap.ModbusWriteThenRead | data/map.c:1227-1307 | a write and a read of such a range return the words written |
| RegisterMap.RegisterMap.ModbusWriteData | data/map.c:1309-1341 | the words of recorded registers are packed into the row (RegisterExternal.DataPacked), nothing else changes; the exact conditions of a refusal |
| RegisterLoader.RegisterLoaded | data/map.c:274-393 | the last line that names a register fixes its default, kind, record flag and access |
| RegisterLoader.FlashLoaded | data/map.c:378-389 | a word of a new flash area holds the default of the last line that goes to that area |
| RegisterLoader.AddressLoaded | data/map.c:274-393 | the last line that names an external address, counted from 40001, decides its register |
| RegisterLoader.NamedByLine | data/map.c:285-377 | the registers and the external addresses a line names: addresses are counted from 40001, a smaller one is the first, and a range needs two of each |
| RegisterLoader.LoadedUsable | data/map.c:254-398 | loading a file keeps every mapped address inside the register space |
| RegisterLoader.InitUsable | data/map.c:186-630 | from cleared memory the common file, the copies and the files of the wells lead to tables that the register calls can use |
| RegisterLoader.InitRegister | data/map.c:394-487 | after map_init the last line of the well's own file that names a register fixes everything about it, else the last line of the common file, outside the first well for the common registers only, else it is as cleared |
| RegisterLoader.InitAddress | data/map.c:394-487 | after map_init an external address stands for the register of the last line that names it, the well's own file before the common one, else for a word of its own |
| RegisterLoader.WellTables.LoadLines | data/map.c:274-393 | the line loop over the tables, with the flash areas that take default values |
| RegisterLoader.WellTables.constructor | data/map.c:212-225 | cleared tables |
| RegisterLoader.WellTables.SetOne | data/map.c:378-389 | one register of a line, in every table |
| RegisterMap.RegisterMap.constructor | data/map.c:561-630 | memory filled from loaded tables holds the store of these tables |
| RegisterMap.MapInit | data/map.c:561-630 | map_init: memory filled from the tables it builds, ready for the register calls |
| Stretch.InsertionFits | meter/wired_electrical_param.c:114-128 | every insertion falls inside the samples so far, or is the last one at the end of the cycle, so no unfilled slot enters a mean |
| Stretch.MeanRounds | meter/wired_electrical_param.c:119-126 | twice an inserted value is the sum of the two samples or misses it by one towards zero |
| Stretch.InsertedShape | meter/wired_electrical_param.c:113-130 | after any number of insertions the samples keep their order and each inserted value is the mean of its two neighbours |
| Stretch.StretchedShape | meter/wired_electrical_param.c:113-130 | the finished cycle has m values of that shape, one in every m / (m - n) of them inserted, the last position wrapping to sample 0 |
| Stretch.SampleKept | meter/wired_electrical_param.c:113-130 | every sample is in the result, and any two in their order |
| Stretch.BuffBackward | meter/wired_electrical_param.c:316-327 | shifts by one place, or does nothing for a length of at most one |
| Stretch.OpenSlot | meter/wired_electrical_param.c:117-118 | the shift opens the position in one channel and leaves the other alone |
| Stretch.SetMean | meter/wired_electrical_param.c:119-126 | the mean of the neighbours, or of the last and the first sample, is stored in the opened position |
| Stretch.StretchCycle | meter/wired_electrical_param.c:113-130 | the loop stretches both channels in place |
| UartRing.StepSound | driver/omap-serial.c:319-432 | every event keeps the bytes sent among the bytes put, and a transfer within what waits before the end of the buffer |
| UartRing.InterruptSends | driver/omap-serial.c:330-343 | a stopped port sends nothing; otherwise an interrupt sends all that waits or a quarter of the FIFO, whichever is less, but at least one byte |
| UartRing.TwoTransfersDrain | driver/omap-serial.c:404-418 | at most two transfers empty the ring, however the bytes lie around the end of the buffer |
| UartRing.InterruptsDrain | driver/omap-serial.c:319-348 | as many interrupts as bytes waiting empty the ring |
| UartRing.PendingCounts | driver/omap-serial.c:408-408 | the masked difference of head and tail is the number of bytes put and not sent |
| UartRing.OmapPort.SendOne | driver/omap-serial.c:336-338 | the byte at the tail is the next one put |
| UartRing.OmapPort.TransmitChars | driver/omap-serial.c:319-348 | at least one and at most a quarter of the FIFO, in order, or nothing when empty or stopped |
| UartRing.OmapPort.StartTx | driver/omap-serial.c:350-432 | starts the transfer of the bytes waiting up to the end of the buffer, if none is under way |
| UartRing.OmapPort.SetUpTransfer | driver/omap-serial.c:405-418 | the transfer covers the bytes waiting, cut at the end of the buffer |
| UartRing.OmapPort.InFlightWaits | driver/omap-serial.c:398-432 | the bytes under a transfer stay the next bytes to send until it completes |
| UartRing.OmapPort.TxDmaCallback | driver/omap-serial.c:1444-1498 | the completed bytes are the next ones put, across the end of the buffer; the rest is started or the ring is idle |
| UartRing.RunPort | driver/omap-serial.c:319-432 | over every run in either mode what was sent is a prefix of what was put, and the tail never passes the head |

## Left out

- cJSON: allocation failures, cJSON_Delete and the freeing of replaced strings, object items by name, references, and the error pointer `ep`.
- cJSON strings are values in the nodes: sharing of a `char *` between nodes is not modelled.
- JsonParser.ParseNumberAt: the decimal is exact, so the rounding of `double` and the overflow of `(int)n` are not modelled.
- JsonPrinter.PrintValue: node types above 6, which it answers with null; numbers are 32-bit integers stored in both number fields; the `%f` and `%e` forms are floating point.
- JsonAccept.AcceptedExactly: says of a text on which the answer is `Outside` only that no value is read; JsonTight.MinifiedIsTight needs the literals to be closed.
- JsonParser.ParseValue: texts whose parsing reaches a literal on whose end the two passes disagree are outside it (see `Outside` above); the string, member and item methods below it likewise.
- JsonBuffers.MinifyInPlace: comments and strings must be closed before the end of the text, because the source reads past it otherwise.
- JsonGrammar.StandardDocument: literals with \u0000 or an unpaired surrogate; the grammar has them as pieces that stand for nothing, as the parser drops them.
- Xxtea.Btea: a count larger than the array, which Python answers with an exception.
- Csv.FieldRoundTrip: multi-character separators and NULL values in output.
- CsvShell.CsvReader.ReadOneField: interrupts and the messages on stderr.
- CsvShell.CsvReader.Import: the SQLite calls; a bound row is what sqlite3_step would insert.
- The header line of CSV output: it is written like any other row.
- Quoting.ResolveBackslashes: strings that end inside an escape, where the source reads past the terminator.
- DotCommand.SplitToken: a bare argument that ends in a lone backslash, for the same reason; DotCommand.SplitLine likewise for every argument of the line.
- Sender8002.RunReaches: reconnects, which start the client over, and a change of the image file during an upgrade.
- SenderClient.Client.SndImageData: sockets, log lines, and the division by zero in the log line when an empty image is reported finished.
- RegisterMap.RegisterMap.ZigbeeRead: function registers, locks and the flash synchronisation, which is taken to succeed; RegisterMap.RegisterMap.ZigbeeWrite and the calls built on the two likewise.
- RegisterMap.MapInit: files, shared memory and parsing are parameters; a register space smaller than the 300 common registers, where the copies run into the next well.
- JsonGrammar.NumeralParsed: an exact decimal, like JsonParser.ParseNumberAt.
- RegisterMap.RegisterMap.ModbusWriteData: ranges longer than the register space, where the record flags of the next well would be read.
- The rows of a well are addressed as two-dimensional arrays; the flat layout behind them is not modelled. Remapping a well at run time is left out.
- RegisterLoader.WellTables.LoadLines: file reading and number parsing; lines come as parsed entries whose registers and addresses exist.
- Stretch.StretchCycle: cycles of 250 samples and cycles with fewer than half of their samples, where the shift leaves its channel; the collecting loop before it.
- UartRing.RunPort: x_char, RS485 timing, failing DMA requests, a change of mode, receive paths and locking; a byte counts as sent by DMA when its transfer completes.
- The HTML, list, column and insert output modes of the SQLite shell, and the meter's unit scaling.
