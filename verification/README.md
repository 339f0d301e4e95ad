# cJSON and the text codecs of the SQLite shell

This project models two parts of the repository in Dafny and proves what they promise.

**The JSON library (`src/cJSON.c`).** `Json` is the recursive-descent parser as a function on
NUL-free byte strings; `Grammar` is JSON with every blank, escape and number spelling kept, with
the text and the value of each tree, `Recognition` shows that the parser accepts nothing else, and
`Uniqueness` that no text has two trees; `Positions` says where parsing fails. `JsonPrint` is the
text both printers produce, and `Layout` its white space. `Spelling` states in numbers what stands
for what: escapes, digits, keywords, exponents. On that base

- `Parser`, `StringParser` and `Items` are the parser as written: cursors, a counting and a
  decoding pass for strings, nodes with `next`, `prev` and `child` linked as they are read, every
  allocation allowed to fail;
- `AllocatingPrinter` and `BufferedPrinter` are the two printers, over arrays and an allocator
  that records which blocks are live and how many requests it has refused;
- `Minify` is the in-place minifier, `ItemLists` the pointer surgery on child lists and the
  reference nodes, `Duplication` the deep copy;
- `Documents` puts texts, node trees and printers together.

**The SQLite shell (`modules/sqlite-amalgamation-3130000/shell.c`).** `Csv` is the CSV writer, the
character-at-a-time reader and the row loop of `.import`; `DotCommand` is the string escaper, the
in-place tokenizer and the backslash resolver; `Pretty` is the SQL pretty-printer.

Conventions. A C string is a `Text`, a sequence of the values 1 to 255; `Bytes` has what C reads at
an index. A `double` is a real number: digits and powers of ten are exact. `sprintf` for doubles
that are not C ints is the parameter `fp`, any JSON number that fits its 64-byte buffer. `malloc`
is an oracle: `Allocator.live` is the set of blocks handed out and not freed, `denied` counts the
refusals, and freeing a block that is not live is not possible. In `Items` a tree of nodes has a
picture, a `Shape`; `Tree` says that the nodes are as pictured, `Sep` that no block occurs twice,
`Foot` is what the tree owns, and `Means` relates it to a JSON value. The picture of a reference
shows either what it owns or what it shares.

The characters of the two programs are taken in the C locale, and `char` is taken as signed where
it matters (the separator of the CSV reader). Conditions on callers: parsed text does not end in a
backslash, because the scan at `src/cJSON.c:198` steps over two bytes; text that is minified has
terminated strings and comments; the buffered printer's text stays below 2^30 bytes, the range of
`pow2gt`; an item that is added to a list is in no other list; CSV separators are not 0xFF, which
as a signed char equals EOF, so that the loop over extra fields in `.import` would not end.

## Findings

Properties the code does not have, each with an input and the exact condition.

- A second minification can change the text: `/ /` becomes `//` and then nothing
  (`Minify.NotIdempotent`). It changes nothing if and only if no slash kept outside strings is
  followed, once blanks and comments are dropped, by a slash or a star (`Minify.IdempotentIff`).
- `/*/` is a whole comment, since its star is used twice (`Minify.StarCloses`). A comment ends at
  the first star-slash pair of its body if and only if the body does not start with a slash
  (`Minify.StarClosesIff`).
- Printing can lose a number that is not an integer: 1 + DBL_EPSILON, the next double after 1,
  passes the test for "%d" and is printed as 1 (`JsonPrint.NextAfterOneIsLost`). A tree comes back
  if and only if each of its numbers is 0, or an integer where it passes that test, or kept by
  `fp` where it does not (`JsonPrint.RoundTrip`).
- The parser accepts texts that are not JSON by RFC 8259: the numbers `-`, `01` and `1e`
  (`Uniqueness.LooseNumber`, `Uniqueness.LooseNumbers`), control bytes as white space (`Uniqueness.LooseBlank`), raw control
  bytes and any letter behind a backslash in a string (`Recognition.LooseInputs`). What is accepted
  is exactly the grammar (`Recognition.AcceptedIff`); a text with a tree is JSON if and only if no
  number, string or blank in its one tree is outside the RFC (`Uniqueness.JsonIff`). For a number
  and for a string body a scan of the bytes decides that (`Uniqueness.Section6Iff`,
  `Recognition.Section7Iff`).
- A string that is not closed is accepted where the text ends: `"a` (`Recognition.OpenInput`). An
  accepted text is such a string, and no document of the grammar, if and only if no quote ends the
  string behind the leading blanks (`Recognition.OpenIff`); the minifier runs past the terminator
  of exactly those (`Minify.MinifyAccepted`).
- The name an item had before `cJSON_ReplaceItemInObject` is never freed: "b" is lost when an item
  of that name is put in under "a" (`ItemLists.LostInput`). A block is lost if and only if an item
  is replaced and the new one had a name (`ItemLists.ReplaceItemInObject`).
- Where `char` is signed, a CSV separator from 0x80 on is written but never found by the reader: a
  table comes back if and only if the separator is ASCII, or there is one column, or no row
  (`Csv.RoundTripsIff`).
- A separator of more than one byte is looked for at the front of a field only: with `||` the field
  `a||b` is written as it is (`Csv.BareInput`). A field that holds the separator is left unquoted if
  and only if the separator is longer than a byte, is not at the front, and no byte of the field is
  listed (`Csv.BareIff`).
- Where `.import` input ends right behind a separator, the column after it is NULL and not empty:
  `a,` for two columns (`Csv.NullInput`). A column read is NULL if and only if the input ends behind
  the separator of one of the columns before the last, and it is the one behind that separator
  (`Csv.NullIff`).
- The pretty-printer breaks lines inside quotes: the literal `','` behind a parenthesis
  (`Pretty.QuotedInput`). Text without blanks and parentheses is laid out as it is, quoted or not,
  if and only if it has no comma or is not directly inside the outermost parentheses
  (`Pretty.QuotedIff`).
- `\s` is documented as a space (`shell.c:2384`) and resolved to the letter
  (`DotCommand.SpaceInput`). The documented meaning of a letter or mark is kept if and only if it is
  not that one (`DotCommand.DocumentedIff`).
- NULL is shown as a text, by default an empty one, and read back as that text: a table with a
  single NULL (`Csv.NullBack`). With a separator that is found, a table comes back if and only if it
  has no NULL (`Csv.NullsIff`).

## Model

| member | source | states |
|---|---|---|
| Grammar.ParseDocument | src/cJSON.c:327-341 | every text of sections 2 to 7 of RFC 8259 (no `\u0000`, no unpaired surrogates), with blanks around it, is accepted, with or without the check for its end, and gives the value the grammar assigns |
| Grammar.ParseValueOf | src/cJSON.c:360-372 | in front of any rest that cannot continue a number, each tree's text is read as its value and exactly the rest is left |
| Grammar.ParseNumberOf | src/cJSON.c:96-115 | a number token is read as its signed decimal fraction times its power of ten, exactly |
| Grammar.MantissaIsRational | src/cJSON.c:102-110 | digits read on past the point and shifted back are the place-value fraction |
| Grammar.ParseStringOf | src/cJSON.c:193-252 | a string of plain bytes, short escapes, escapes and surrogate pairs is read as the concatenation of what its pieces stand for |
| Grammar.ParseMembersOf | src/cJSON.c:517-550 | members with blanks around name, colon, value and comma are read in order, up to the closing brace |
| Grammar.ParseItemsOf | src/cJSON.c:409-434 | items with blanks around them are read in order, up to the closing bracket |
| Recognition.AcceptedIff | src/cJSON.c:327-341 | with the check for the end, exactly the documents of the grammar are accepted, and strings that the end of the text leaves open; the value is the one the grammar assigns |
| Recognition.AcceptedStarts | src/cJSON.c:327-341 | without it, an accepted text is such a string or starts with blanks and the text of a tree, and the rest is what stands behind it |
| Recognition.ValueIs | src/cJSON.c:360-372 | whatever the recursive parser takes for a value, other than an open string, is the text of a tree with that value |
| Recognition.OpenIff | src/cJSON.c:198 | an accepted text is an open string, and no document, if and only if no quote ends the string in front of it |
| Recognition.UnterminatedString | src/cJSON.c:193-252 | a string the end of the text leaves open is accepted exactly if its body decodes, and read as if a quote followed |
| Recognition.OpenInput | src/cJSON.c:198 | `"a` is accepted |
| Recognition.Section7Iff | src/cJSON.c:206-247 | an accepted body is one of section 7 of RFC 8259 if and only if it has no raw control byte and no other letter behind a backslash |
| Recognition.LooseInputs | src/cJSON.c:208-246 | a body with `\q` and one with a raw line feed are accepted |
| Uniqueness.TreeOnce | src/cJSON.c:360-372 | no text starts with two different trees |
| Uniqueness.DocumentOnce | src/cJSON.c:327-341 | a document determines its tree and the blanks around it |
| Uniqueness.JsonIff | src/cJSON.c:327-341 | an accepted document is JSON by sections 2 to 7 of RFC 8259 if and only if nothing in its tree is outside them |
| Uniqueness.OpenIsNotJson | src/cJSON.c:198 | an open string never is |
| Uniqueness.Section6Iff | src/cJSON.c:98-107 | an accepted number is one of section 6 of RFC 8259 if and only if a digit follows the sign, none follows a leading zero, and one stands at the end |
| Uniqueness.LooseNumber | src/cJSON.c:98-107 | every number of the grammar is accepted, and is JSON if and only if it is one of section 6 |
| Uniqueness.LooseNumbers | src/cJSON.c:98-107 | `-`, `01` and `1e` are numbers of the grammar, 0, 1 and 1, and none of section 6 |
| Uniqueness.LooseBlank | src/cJSON.c:324 | so is a control byte in front of a value |
| UnicodeText.EscapesDecode | src/cJSON.c:219-243 | a run of `\u` escapes, whatever other bytes follow it, is accepted if and only if it is NUL-free well-formed UTF-16 (section 2.2 of RFC 2781), and gives the UTF-8 of its code points |
| UnicodeText.BodyDecode | src/cJSON.c:206-248 | a string body of bytes, short escapes and runs of `\u` escapes is accepted if and only if every run is; no surrogate pairs form across other bytes |
| UnicodeText.Utf8IsDecoded | src/cJSON.c:234-241 | the stored bytes decode, by section 3 of RFC 3629, to the code point |
| UnicodeText.Utf8IsUnique | src/cJSON.c:234-241 | they are the only, hence the shortest, well-formed bytes for it |
| UnicodeText.CombineSplits | src/cJSON.c:226-231 | every supplementary code point splits, by section 2.1 of RFC 2781, into a pair that combines to it |
| UnicodeText.BitsAreDigits | src/cJSON.c:230-241 | the masks and shifts on 32-bit words are the remainders and quotients of the model |
| StringParser.Scan | src/cJSON.c:198 | the first pass ends at the closing quote or the terminator, counts one for a byte and one for an escape, and leaves no escape cut in two |
| StringParser.ParseHex4 | src/cJSON.c:178-189 | the four digits' value, or 0 if one is missing, without reading past the terminator |
| StringParser.ReadUnicode | src/cJSON.c:218-232 | accepts exactly the single code units and pairs the grammar function accepts, with the same code point and length, inside the scanned part |
| StringParser.UnicodeStep | src/cJSON.c:198-243 | an escape or a pair of them never stores more bytes than the first pass counted for it |
| StringParser.DecodeBody | src/cJSON.c:205-250 | the second pass stays inside what the first scanned and inside the block of its count, and yields the decoded bytes with a terminator or rejects exactly when the body is malformed |
| Spelling.ShortEscape | src/cJSON.c:208-245 | in front of any further body, a backslash and `b`, `f`, `n`, `r` or `t` is read as the byte 8, 12, 10, 13 or 9, and one and any other byte but `u` as that byte |
| Spelling.ShortStrings | src/cJSON.c:193-252 | the eight short escapes of section 7 of RFC 8259, each as a whole string in front of any rest, by number |
| Spelling.HexEscape | src/cJSON.c:178-189 | four of the 22 hexadecimal digits, by number, give the code unit with those digits |
| Spelling.NoHexEscape | src/cJSON.c:178-189 | any other byte among the four makes the string invalid |
| Spelling.Keywords | src/cJSON.c:363-365 | the three keywords, in front of any rest |
| Spelling.ExponentScales | src/cJSON.c:103-108 | an exponent multiplies the number by its power of ten, or divides it where its sign is a minus |
| Spelling.PrintedByte | src/cJSON.c:268-310 | what is printed for each of the 255 bytes of a string, by number |
| Spelling.NumberBranch | src/cJSON.c:147-175 | 0, a number within 2^-52 of the C int it is cut to, and any other, each with the text that is printed for it |
| Spelling.IntText | src/cJSON.c:160 | "%d": a minus if there is one, and the decimal digits |
| Positions.FailurePosition | src/cJSON.c:327-341 | where parsing fails, the text in front is the start of a document, and with the byte there it is not, unless that byte is a quote, a point, or the first letter of a keyword |
| Positions.FailsAlike | src/cJSON.c:371 | with any other byte there, every text that starts the same is rejected at the same position |
| Positions.TokenByteInput | src/cJSON.c:363-371 | each of those five bytes is reported somewhere where a document goes on with it |
| Parser.SkipBlanks | src/cJSON.c:324 | stops at the first byte above the space, or at the terminator |
| Parser.ParseNumber | src/cJSON.c:96-115 | the digit loops, run on the text, set the item to the number the grammar function reads, `valueint` to that number as C converts it, and advance past it |
| Parser.ParseString | src/cJSON.c:193-252 | result, error position and stored bytes are those of the grammar function; the one block allocated belongs to the item even on failure |
| Parser.ReadParts | src/cJSON.c:417-430 | the loop over commas builds a list with mutually inverse links whose nodes show the parts read, and owns exactly what was allocated, also where it stops early |
| Parser.FillMember | src/cJSON.c:528-533 | name, colon and value as the grammar function reads them; the string moves from value to name |
| Parser.ParseArray | src/cJSON.c:409-434 | the node, its list and the position are those of the value the text has, or the error position is; everything allocated hangs off the node |
| Parser.ParseObject | src/cJSON.c:517-550 | the same for objects, with every child under its name |
| Parser.ParseValue | src/cJSON.c:360-372 | for every text and every pattern of failing allocations: strict progress, the value the text has, or the error position inside the text, or a refused allocation |
| Parser.ParseWithOpts | src/cJSON.c:327-341 | on success a detached, reference-free tree of the value, with exactly its blocks newly live; otherwise nothing is left live and either the error position is the grammar function's or memory ran out |
| Parser.ItemsAreParts | src/cJSON.c:417-433 | reading comma by comma gives the items and rest of the recursive definition |
| Parser.MembersAreParts | src/cJSON.c:526-549 | the same for members |
| Documents.DocumentIsSource | src/cJSON.c:198 | no text of the grammar ends in a backslash |
| Documents.AcceptDocument | src/cJSON.c:327-341 | the parser as written accepts every grammar text to its end, unless memory runs out, with a tree of the value it denotes |
| Documents.AcceptExactly | src/cJSON.c:327-341 | while memory lasts it accepts exactly those and open strings, and otherwise leaves nothing allocated |
| JsonPrint.ParsePrinted | src/cJSON.c:375-404 | parsing printed text and any rest gives the tree, each number replaced by the one its token denotes, and the rest |
| JsonPrint.RoundTrip | src/cJSON.c:147-175 | it gives the tree itself if and only if no number is rounded by the branch that prints it |
| JsonPrint.RoundTripInts | src/cJSON.c:156-161 | every tree of C ints comes back, at any depth and in both formats |
| JsonPrint.PrintAfterParse | src/cJSON.c:343-347 | for any accepted text whose numbers are C ints, what is printed is left alone by parsing and printing it again |
| JsonPrint.NextAfterOneIsLost | src/cJSON.c:156-161 | the next double after 1 is printed as 1 |
| JsonPrint.NumberExact | src/cJSON.c:147-175 | a number's token denotes it exactly when its branch does not round it |
| JsonPrint.PrintTreeText | src/cJSON.c:437-661 | printed text is the text of a syntax tree whose gaps are spaces, tabs and line feeds |
| Layout.PrintIsFormatted | src/cJSON.c:573-661 | scanning a formatted print byte by byte: outside strings a line feed follows every `{` and every comma of an object and comes before its `}`, and behind it stand as many tabs as brackets are open, one fewer before a `}`; a tab follows every colon, a space every comma of an array; there is no other blank |
| Layout.PrintIsCompact | src/cJSON.c:461-661 | without formatting there is no blank outside strings |
| TextBlocks.PutString | src/cJSON.c:268-310 | both paths write the quoted, escaped text and its terminator into exactly the space computed |
| TextBlocks.EscapedLength | src/cJSON.c:279 | the length computed is that of the escaped text |
| Allocation.Pow2gt | src/cJSON.c:117 | for a need up to 2^30 the smeared word plus one is the power of two at or above it |
| Allocation.PowerForIsLeast | src/cJSON.c:117 | and no smaller power of two is |
| Allocation.SmearStep | src/cJSON.c:117 | each of the five lines doubles the number of set top bits |
| BufferedPrinter.PrintBuffer.Ensure | src/cJSON.c:121-136 | the text so far is kept, the new length is the least power of two at or above the need, and all growing has copied less than prebuffer and length together; on failure the old block is freed |
| BufferedPrinter.PrintBuffer.Update | src/cJSON.c:138-144 | the offset moves to the end of the text, found with strlen |
| BufferedPrinter.PrintBuffer.PrintArray | src/cJSON.c:461-472 | behind the text already in the buffer stands the array's text, terminated, wherever the buffer has moved |
| BufferedPrinter.PrintBuffer.PrintObject | src/cJSON.c:573-612 | the same for objects |
| BufferedPrinter.PrintBuffer.PrintBuffered | src/cJSON.c:349-356 | for every value, format and prebuffer size: the specified text in the one new block, or null with nothing new live, and null only if an allocation was refused |
| AllocatingPrinter.PrintStringPtr | src/cJSON.c:255-311 | the block holds the text and is filled to its last byte |
| AllocatingPrinter.PrintArray | src/cJSON.c:474-513 | text in one new block or nothing new, through all partial results; the block of a non-empty array is longer than its text by 4, the number of items, and 1 if formatted |
| AllocatingPrinter.PrintObject | src/cJSON.c:614-660 | the same; the block of a non-empty object leaves exactly 5 bytes behind the terminator at any depth and in both formats |
| AllocatingPrinter.PrintValue | src/cJSON.c:375-404 | under every pattern of failing allocations: the specified text in one new block, or null with nothing new live, and null only if an allocation was refused |
| AllocatingPrinter.FreeBoth | src/cJSON.c:637-642 | the recovery frees exactly what the two pointer arrays hold |
| AllocatingPrinter.MembersRoomExact | src/cJSON.c:624-630 | the loop counts the members' text exactly, but for a comma behind the last |
| AllocatingPrinter.ItemsRoomExact | src/cJSON.c:482-487 | what the array loop counts beyond the items' text |
| Documents.ReadValue | src/cJSON.c:375-404 | walking the node chain reads the value its picture means |
| Documents.PrintNode | src/cJSON.c:346-347 | a node tree prints as the value it means |
| Documents.PrintNodeBuffered | src/cJSON.c:349-356 | the same through the growing buffer |
| Documents.PrintBothWays | src/cJSON.c:349-404 | the buffered and the allocating printer give the same text for every node tree, format and prebuffer size |
| Documents.Reparse | src/cJSON.c:327-347 | a tree of C ints that is printed and parsed is a node tree of the same value |
| Documents.PrintCopy | src/cJSON.c:712-737 | a deep copy prints as its original and shares no block with it; what is newly live is the copy and the text, and what is missing was refused |
| Documents.PrintReference | src/cJSON.c:672-679 | a reference that has been added to a list prints as the item it shares with |
| Documents.IntBranch | src/cJSON.c:157 | testing and printing `valueint` is testing and printing the truncated double |
| Minify.MinifyPrinted | src/cJSON.c:739-754 | minifying either print of a tree gives its compact print, which is left alone |
| Minify.MinifyPreservesMeaning | src/cJSON.c:739-754 | a document with blanks and comments becomes one that parses to the same value and that a second pass leaves alone |
| Minify.MinifyAccepted | src/cJSON.c:739-754 | every text the parser accepts to its end is minified, if its string is not left open, to one it accepts as the same value and that a second pass leaves alone |
| Minify.IdempotentIff | src/cJSON.c:739-754 | a second pass changes nothing if and only if a scan of the input finds no kept slash brought up against a slash or a star |
| Minify.NotIdempotent | src/cJSON.c:748-749 | an input that a second pass changes |
| Minify.StarClosesIff | src/cJSON.c:749 | a comment ends at the first star-slash pair of its body if and only if the body does not start with a slash |
| Minify.StarCloses | src/cJSON.c:749 | otherwise its opening star closes it |
| Minify.MinifiedIsBare | src/cJSON.c:744-747 | whatever the input, no space, tab, carriage return or line feed is left outside strings |
| Minify.MinifiedPlain | src/cJSON.c:744-753 | where there are no strings and slashes, exactly those four bytes go |
| Minify.MinifiedMarks | src/cJSON.c:748-752 | in front of any text a string and a lone slash stay, a line comment and a block comment go |
| Minify.MinifyInPlace | src/cJSON.c:739-754 | in place, with the write index never past the read index, the buffer becomes the minified text; bytes behind the old terminator stay |
| Minify.MinifyNext | src/cJSON.c:742-753 | one turn: what is written and what is still unread make up the result |
| Items.NewItem | src/cJSON.c:73-78 | a zeroed node, or nothing |
| Items.LinkLast | src/cJSON.c:670 | the list with the item at its end, links mutually inverse |
| Items.Delete | src/cJSON.c:81-93 | frees every node and string the list owns exactly once and nothing else; what references share is not looked at |
| ItemLists.DeleteInAnyOrder | src/cJSON.c:81-93 | owner and holder of references can be deleted in either order |
| ItemLists.CreateReference | src/cJSON.c:672 | a node that owns itself only and reads as the value of the item it shares with |
| ItemLists.AddItemToArray | src/cJSON.c:675 | the children become the old ones and the item; null changes nothing |
| ItemLists.AddItemToObject | src/cJSON.c:676 | the same under the new name; the old name is freed, and without memory there is no name |
| ItemLists.AddItemReferenceToArray | src/cJSON.c:678 | a reference is appended, or nothing is allocated; unless linking it in touches what the item shows, it shows the same |
| ItemLists.AddItemReferenceToObject | src/cJSON.c:679 | the same under a name |
| ItemLists.InsertItemInArray | src/cJSON.c:688-689 | the item stands at the given index, at the front for a negative one, at the end for one past it |
| ItemLists.DetachItemFromArray | src/cJSON.c:681-682 | the item leaves the list, two separate trees remain; past the end nothing happens |
| ItemLists.DeleteItemFromArray | src/cJSON.c:683 | the item leaves and exactly its blocks are freed |
| ItemLists.ReplaceItemInArray | src/cJSON.c:690-692 | the item is exchanged and deleted; past the end nothing happens and the new item stays the caller's |
| ItemLists.SameNameIff | src/cJSON.c:39-44 | two names are taken for equal if and only if they have the same length and each byte is the same or the same letter in the other case, by number |
| ItemLists.StrCaseCmp | src/cJSON.c:39-44 | zero exactly for names that are equal up to ASCII case, and for two that are missing |
| ItemLists.FindNamed | src/cJSON.c:684 | the first child of that name and its index |
| ItemLists.GetObjectItem | src/cJSON.c:666 | the first child whose name is equal up to case, or that has none if the key is null; or null |
| ItemLists.DetachItemFromObject | src/cJSON.c:684 | detaches exactly that child |
| ItemLists.ReplaceItemInObject | src/cJSON.c:693 | replaces exactly that child; what is live afterwards and owned by nobody is the new item's old name, and there is such a block if and only if a child is replaced and the new item had a name |
| ItemLists.LostInput | src/cJSON.c:693 | an item called "b" that is put in under "a" loses the block of its name |
| ItemLists.LinkBefore | src/cJSON.c:689 | inserting keeps the links mutually inverse |
| ItemLists.Unlink | src/cJSON.c:682 | so does detaching, and the item's own links are null |
| ItemLists.Exchange | src/cJSON.c:691-692 | so does replacing |
| ItemLists.CopyAtPath | src/cJSON.c:712-737 | a deep copy has the same nodes at the same paths, each with the same contents; a shallow one has no children |
| ItemLists.CopyMeans | src/cJSON.c:712-737 | a deep copy means every value the original means |
| Duplication.Duplicate | src/cJSON.c:712-737 | new blocks only, reference-free, same contents at every level asked for; on any failure null with nothing new live |
| Duplication.DuplicateKids | src/cJSON.c:727-735 | the loop over the children: a complete copy, or the part made so far is freed |
| Csv.ImportCtx.ReadOneField | modules/sqlite-amalgamation-3130000/shell.c:2606-2666 | for every input: field, terminator, rest of the input and line count are those of a definition with lookahead, in which a quote is closing, doubled or unescaped |
| Csv.ImportCtx.Turn | modules/sqlite-amalgamation-3130000/shell.c:2621-2652 | one turn of the quoted loop: the bytes kept, `pc` and `ppc` determine what the rest of the field will be |
| Csv.Keeping | modules/sqlite-amalgamation-3130000/shell.c:2621-2652 | a byte that is kept leaves the field that is being read the same |
| Csv.ImportCtx.AppendChar | modules/sqlite-amalgamation-3130000/shell.c:2581-2591 | the byte is added behind the others, whatever the block's size |
| Csv.ImportCtx.ReadRow | modules/sqlite-amalgamation-3130000/shell.c:3573-3602 | one round of the loop: the columns bound, NULL where fields are missing, extra fields passed over |
| Csv.NullIff | modules/sqlite-amalgamation-3130000/shell.c:3573-3593 | among the columns read one is NULL if and only if the input ends behind the separator of a column that is not the last; it is the last one read |
| Csv.NullInput | modules/sqlite-amalgamation-3130000/shell.c:3573-3593 | `a,` for two columns |
| Csv.Import | modules/sqlite-amalgamation-3130000/shell.c:3571-3612 | the rows inserted, in order, are those of the definition for every input and number of columns |
| Csv.ShellState.OutputCsv | modules/sqlite-amalgamation-3130000/shell.c:854-883 | the field quoted, with quotes doubled, if it is empty, holds a listed byte, or the separator, where that is one byte, or else starts with it |
| Csv.BareIff | modules/sqlite-amalgamation-3130000/shell.c:861-868 | a field that holds the separator is not quoted if and only if the separator has more than one byte, is not at the front, and no byte is listed |
| Csv.BareInput | modules/sqlite-amalgamation-3130000/shell.c:861-868 | a field with two bars in its middle is not, where two bars are the separator |
| Csv.ShellState.ShowRow | modules/sqlite-amalgamation-3130000/shell.c:1179-1194 | the header before the first row if asked for, then the row and its end |
| Csv.QuotedWhen | modules/sqlite-amalgamation-3130000/shell.c:819-883 | a field is bare if and only if it is not empty and all its bytes are from 33 to 126, no quote, apostrophe or separator |
| Csv.QuotedEnds | modules/sqlite-amalgamation-3130000/shell.c:2615-2653 | any text with its quotes doubled is read up to a quote and the separator, a line feed, or both end bytes, and up to the end of the input with or without a quote there |
| Csv.LoneQuote | modules/sqlite-amalgamation-3130000/shell.c:2625-2645 | a quote that is neither doubled nor followed by an end is part of the field, and so is what follows it |
| Csv.BareField | modules/sqlite-amalgamation-3130000/shell.c:2654-2664 | a field without a quote in front ends at the separator, a line feed or the end of the input, and loses one carriage return in front of a line feed only |
| Csv.FieldReads | modules/sqlite-amalgamation-3130000/shell.c:2606-2666 | every written field is read back, with the separator or row end that follows it |
| Csv.TableReads | modules/sqlite-amalgamation-3130000/shell.c:3571-3612 | rows of any lengths, written and imported into any number of columns, come back in the same order, each cut off behind the last column or filled up with NULL, for any fields, including quotes, separators, line ends and empty ones (section 2 of RFC 4180); a NULL comes back as the text shown for it |
| Csv.RoundTripsIff | modules/sqlite-amalgamation-3130000/shell.c:2606-2610 | with a signed `char`, a table without NULL comes back if and only if the separator is ASCII, or there is one column, or no row |
| Csv.NullsIff | modules/sqlite-amalgamation-3130000/shell.c:854-859 | with an ASCII separator, a table comes back if and only if it has no NULL |
| Csv.NullBack | modules/sqlite-amalgamation-3130000/shell.c:854-859 | a table with a single NULL comes back with an empty text |
| Csv.ShowTable | modules/sqlite-amalgamation-3130000/shell.c:1179-1194 | the row callback, once for each row, writes the header if it is shown and the rows |
| Csv.ShowAndImport | modules/sqlite-amalgamation-3130000/shell.c:1179-1194 | writer, reader and row loop as written, run one after the other, return the header and the rows, in any number of columns |
| DotCommand.OutputCString | modules/sqlite-amalgamation-3130000/shell.c:762-788 | the escaped text between quotes |
| DotCommand.ResolveEscaped | modules/sqlite-amalgamation-3130000/shell.c:2390-2432 | resolving undoes escaping, for every byte value |
| DotCommand.OctalDigits | modules/sqlite-amalgamation-3130000/shell.c:2416-2426 | one to three octal digits, as the nested tests read them, modulo 256 |
| DotCommand.ResolveBackslashes | modules/sqlite-amalgamation-3130000/shell.c:2390-2432 | in place, the C string becomes its resolution up to the first NUL; nothing outside it changes |
| DotCommand.EscapedByte | modules/sqlite-amalgamation-3130000/shell.c:762-788 | what is written for each of the 255 bytes, by number |
| DotCommand.ResolvedByte | modules/sqlite-amalgamation-3130000/shell.c:2390-2432 | what a backslash and a byte that is no octal digit stand for, in front of any text, by number |
| DotCommand.ResolvedThree | modules/sqlite-amalgamation-3130000/shell.c:2416-2426 | three octal digits in front of any text, their value modulo 256 |
| DotCommand.DocumentedIff | modules/sqlite-amalgamation-3130000/shell.c:2374-2432 | a letter or mark has the meaning documented for it if and only if it is not `s` |
| DotCommand.SpaceInput | modules/sqlite-amalgamation-3130000/shell.c:2384 | `\s` is the letter |
| DotCommand.QuotedReads | modules/sqlite-amalgamation-3130000/shell.c:3088-3097 | any text, escaped between double quotes, is read back, and reading goes on right behind it |
| DotCommand.WordReads | modules/sqlite-amalgamation-3130000/shell.c:3098-3102 | any text without a space and without an apostrophe in front, escaped as a word, is read back up to the blank behind it |
| DotCommand.RawReads | modules/sqlite-amalgamation-3130000/shell.c:3088-3097 | any text without an apostrophe comes back as it is between two of them, backslashes included |
| DotCommand.ArgReads | modules/sqlite-amalgamation-3130000/shell.c:3083-3103 | so an argument is read back in each of the three ways it can be written |
| DotCommand.ArgsRead | modules/sqlite-amalgamation-3130000/shell.c:3083-3103 | a line of arguments, each in one of the three ways, gives back exactly those, the first `max` of them |
| DotCommand.CommandReads | modules/sqlite-amalgamation-3130000/shell.c:3083-3103 | a command name and at most 49 arguments come back as they were given |
| DotCommand.NextArg | modules/sqlite-amalgamation-3130000/shell.c:3086-3102 | one argument, cut out and resolved in the line itself, the unread part untouched |
| DotCommand.Tokenize | modules/sqlite-amalgamation-3130000/shell.c:3083-3103 | for every line, the table points at exactly the arguments of the definition, at most 50 |
| DotCommand.RunCommand | modules/sqlite-amalgamation-3130000/shell.c:3083-3103 | a line of a name and arguments, each in one of the three ways, is cut up in place into the name and exactly those |
| Pretty.PrettyTwice | modules/sqlite-amalgamation-3130000/shell.c:1072-1119 | the pretty-printer is idempotent on every statement |
| Pretty.PrettyWords | modules/sqlite-amalgamation-3130000/shell.c:1072-1119 | every word, parenthesis and comma stays, in order |
| Pretty.PrettyLaidOut | modules/sqlite-amalgamation-3130000/shell.c:1091-1117 | in a long statement every `(` and `,` directly inside the outermost parentheses ends its line, and every line that starts there is indented by two blanks or starts with the closing parenthesis |
| Pretty.PrettyShort | modules/sqlite-amalgamation-3130000/shell.c:1080-1091 | a tidy statement of fewer than 79 bytes is shown as it is, and one that is tidied to fewer gets no line break and no byte more |
| Pretty.VerbatimIff | modules/sqlite-amalgamation-3130000/shell.c:1072-1077 | a statement that starts with CREATE VIEW or CREATE TRIG, in any case, is shown as it is |
| Pretty.BlanksGo | modules/sqlite-amalgamation-3130000/shell.c:1082-1089 | a blank behind a blank or `(`, or in front of a parenthesis, might as well not be there, anywhere in the text |
| Pretty.BlankEndsGo | modules/sqlite-amalgamation-3130000/shell.c:1081-1090 | nor might one at either end |
| Pretty.LayoutNext | modules/sqlite-amalgamation-3130000/shell.c:1092-1115 | what each further byte adds to the lines, by the parentheses open in the text and the end of what is shown |
| Pretty.DepthCounts | modules/sqlite-amalgamation-3130000/shell.c:1101-1103 | the parentheses open are those opened less those closed |
| Pretty.TidiedKeeps | modules/sqlite-amalgamation-3130000/shell.c:1080-1090 | the first pass keeps the words and leaves no blank at either end, doubled, behind `(` or before a parenthesis |
| Pretty.TidiedFixed | modules/sqlite-amalgamation-3130000/shell.c:1080-1090 | a text that has none is left alone |
| Pretty.LayoutTwice | modules/sqlite-amalgamation-3130000/shell.c:1092-1117 | tidying and laying out again what has been laid out gives the same lines, and the width test still holds |
| Pretty.LayoutWords | modules/sqlite-amalgamation-3130000/shell.c:1092-1117 | line breaks keep the words |
| Pretty.QuotedIff | modules/sqlite-amalgamation-3130000/shell.c:1093-1115 | text without blanks and parentheses is laid out as it is, quoted or not, if and only if it has no comma or is not directly inside the outermost parentheses |
| Pretty.QuotedInput | modules/sqlite-amalgamation-3130000/shell.c:1093-1115 | the literal `','` is broken |
| Pretty.Squeeze | modules/sqlite-amalgamation-3130000/shell.c:1080-1090 | the first pass in place, with the write index never past the read index |
| Pretty.TracksByte | modules/sqlite-amalgamation-3130000/shell.c:1093-1109 | the quote being tracked has no part in where lines break |
| Pretty.BreakByte | modules/sqlite-amalgamation-3130000/shell.c:1093-1115 | one byte with the line breaks around it: printed and buffered text make up the page of the bytes read |
| Pretty.BreakLines | modules/sqlite-amalgamation-3130000/shell.c:1092-1117 | the second pass prints and buffers the layout |
| Pretty.ShowPretty | modules/sqlite-amalgamation-3130000/shell.c:1071-1119 | for every column value: nothing, the statement as it is, tidied, or laid out, and a semicolon |
| Pretty.ShowTwice | modules/sqlite-amalgamation-3130000/shell.c:1071-1119 | what it shows is shown the same again |

## Left out

- Documents.ReadValue: it walks the nodes first and the printers then run on the value, where the source prints as it walks; neither changes a node, so only the interleaving is lost.
- JsonPrint.Print: the number formats of `sprintf` ("%.0f", "%e", "%f") and the text for NaN and infinity are the parameter `fp`; rounding of doubles and of `pow` is not modelled.
- Parser.ParseNumber: `subscale` is unbounded, where an exponent beyond the range of `int` overflows in the source; `valueint` is arbitrary for a double that does not fit an `int`.
- BufferedPrinter.PrintBuffer.PrintObject: the pointer returned at a depth above 0 with formatting is modelled as the offset it is, and like the source no caller uses it.
- BufferedPrinter.PrintBuffer.PrintBuffered: does not cover texts near 2^30 bytes and more, where `pow2gt` and the `int` sizes overflow.
- Json.ParseValue: nesting deeper than the C stack allows is not limited.
- Items.Item: `cJSON_StringIsConst` and `cJSON_AddItemToObjectCS` are left out; the flag survives operations that replace the string.
- ItemLists.GetObjectItem: names and keys in the C locale's ASCII case only.
- ItemLists.ReplaceItemInObject: a null key is left out, for which the source copies a null string where it finds a child without a name.
- ItemLists.AddItemReferenceToArray: where the new node is linked in below the item it shares with, as when an array is added to itself, the contract does not say what it shows.
- ItemLists.AddItemToArray: lists that contain one item twice, or an array added to itself, are excluded by the conditions on callers.
- The Create functions, `cJSON_GetArraySize`, `cJSON_GetArrayItem`, `cJSON_InitHooks`: one-line wrappers or loops already covered.
- Csv.Import: `CREATE TABLE` from the first row, transactions and failing inserts are calls into the database engine; messages on stderr and interrupts are left out. `realloc` does not fail, since the program ends where it does.
- DotCommand.Tokenize: what the command then does.
- Files other than these two: declarations, configuration, samples and the database engine.
