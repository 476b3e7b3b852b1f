# Verified models of tinyxml2 and Google Test

The repository carries two bodies of code with algorithms of their own: the XML library tinyxml2 and the
testing framework Google Test. This project models their hard parts in Dafny and proves what they are for.
`dafny verify dfyconfig.toml` checks the whole project.

## What is modelled

**tinyxml2.** `Text` and `Entities` describe bytes, entities and the decoding of strings, `References` the numeric
references that are well formed, `IdealReading` how a string is meant to be read, `LineBreaks` the line breaks of
the standard. `StrPairs` holds the lazy strings, which are decoded in place when first read. `ParserSpec` says what
the recursive-descent parser computes from a text, `Documents` is the parser itself, which moves a cursor over a
buffer, writes terminators into it, and takes nodes from four pools (`MemPools`, `NodePools`). `ParserProperties`
states what every parse guarantees, `BrokenTags` on which texts the parser dereferences a null cursor, `TopLevel`
where a parse without error ends. `Grammar` and `SyntaxErrors` say by the bytes of a text, and without those functions,
which nodes the parser keeps and which error it reports; `Alphabet` lists characters, entities and encodings by their
codes. `PrintSpec` says how a tree is printed, `Layouts` how the output looks in both modes, and `Printers` is the
stream of events that prints it. `RoundTrip` connects printing and parsing, `Reload` parsing and printing, and `SaveAndLoad` runs the
objects one after the other. `Siblings` has the links between nodes.

**Google Test.** `EditDistance` and `EditScripts` are the cost table and the scripts read from it, `UnifiedDiff`
and `DiffText` the diff printed for unequal texts. `SimpleRegex` and `RegexMatch` are the regular expressions of
death tests, `RegexClasses` describes their languages by the codes of characters. `Filters`, `Shards`, `Shuffling`, `Registry` and `TestRuns` are the path from registering test cases
to running them. `CharacterData` and `CodePoints` are parts of the XML report that tinyxml2 can be held against.

A C string is a Dafny string of the bytes in front of the terminator; a buffer is an array with the terminator in
it; a cursor is a position. Bit operations on bytes are written as arithmetic, and wrap-around is written out: 32
bits for `unsigned`, and 64 bits for the `unsigned long` in which `GetCharacterRef` adds up digits. Where that type
has 32 bits, as on Windows, more references read wrongly than are said to here.

## Where the code and its promises part

* A string is meant to be read with known entities as their characters, numeric references as the UTF-8 of the number
  that their digits denote, and every other ampersand as itself (`IdealReading.Ideal`). A step of the decoder fails to
  do so in four ways: an unknown entity meets another byte than an ampersand at the write position
  (`IdealReading.StaleByteExample`), a `&#` ends the string and loses its ampersand (`IdealReading.FinalExample`), the
  number of a reference wraps (`IdealReading.WrappedExample`), or the reference is malformed and the read cursor
  becomes null. The string is decoded as it is meant exactly when no step fails
  (`IdealReading.DecodeIsIdealIff`), or when a number that wraps to an ampersand makes up for one lost at the end
  (`IdealReading.CancelExample`), which needs a `&#` at the end (`IdealReading.NothingCancels`).
* A reference reads as the number it denotes exactly when the number does not wrap: it is below 2^32, or the sum of its
  digits, each times its power of the base modulo 2^32, is at least 0x200000. In hexadecimal that sum is the number
  modulo 2^32 (`IdealReading.NumericReferenceIff`).
* Section 4.1 of XML 1.0 wants at least one digit in a reference and no other byte; the program passes over bytes in
  front of the last `#` or `x`, and takes no digits for zero (`IdealReading.GrammaticalIff`,
  `IdealReading.LooseExample`). A zero is read as a NUL byte, which ends the string for who reads on.
* A numeric reference makes the read cursor null if no `;` stands behind it, or another byte than a digit between its
  last mark and the first `;`; only a `&#` at the very end does not. That happens exactly when the decoder comes to such
  a reference (`References.DecodeBreaksIff`, `References.MalformedExample`); a string whose references are all well
  formed can be read (`References.WellFormedReads`).
* The check for duplicate attributes reads the value of the attribute that it finds, so the parser itself may
  dereference a null cursor, on `<a b="&#z;" b=""/>` for example (`BrokenTags.BrokenExample`). It does so exactly when
  it comes to a tag whose first repeated name is that of an attribute with such a value
  (`BrokenTags.DocumentBreaksIff`); never on a text without numeric references (`BrokenTags.NoReferenceNoBreak`).
* An end tag that nothing opened ends the parse of a document without an error, on `</b>x` for example
  (`TopLevel.EndTagExample`), and whatever follows is ignored (`TopLevel.RestIgnored`). A document without an error
  was read to its end exactly when no such end tag stands behind its nodes (`TopLevel.ReadWholeIff`).
* LF followed by CR becomes one line feed, unlike in section 2.11 of XML 1.0 (`LineBreaks.LostBreak`). The decoder
  agrees with that section exactly when each such pair that it takes is followed by another LF
  (`LineBreaks.LinesIff`, `LineBreaks.StandardIff`).
* The edit script is promised to be optimal. It is not (`EditScripts.NotTheCheapest`). No script undercuts it exactly
  when every cell that the walk back visits is tight (`EditScripts.CheapestIff`); a cell that is not was overlooked
  itself or lies beside one above its least price (`EditScripts.UndercutCell`). The whole table holds least prices exactly
  when it overlooks no cell (`EditScripts.LeastEverywhereIff`).
* A diff without context is empty, so it patches only equal lists (`DiffText.CreateUnifiedDiff`).
* A full match of a regular expression that ends in an escaped dollar sign accepts longer strings
  (`RegexMatch.FullMatchIff`, `RegexMatch.OvermatchExample`).
* Sections of the XML report keep everything but carriage returns (`CharacterData.SectionsParsed`).
* `CodePointToUtf8` is documented to refuse numbers above 0x10FFFF; it refuses those above 0x1FFFFF and loses zero,
  so it is as documented exactly for all numbers but 0 and those from 0x110000 to 0x1FFFFF
  (`CodePoints.CodePointToUtf8`).
* A comment in `XMLElement::ParseAttributes` says that duplicate attributes are not detected; the code refuses them
  (`ParserProperties.AttributesDistinct`).

## Model

| member | source | states |
|---|---|---|
| RoundTrip.DocumentRoundTrip | src/tinyxml2/tinyxml2.cpp:1732-1969 | Every printable document, printed compactly or with line breaks and with or without a byte order mark, parses without error to a tree whose decoded strings are the document again |
| RoundTrip.PrintInjective | src/tinyxml2/tinyxml2.cpp:1732-1969 | Two different printable documents never print alike, whatever the two modes |
| RoundTrip.ListParsed | src/tinyxml2/tinyxml2.cpp:730-805 | A printed list of nodes, at any depth and anywhere in a text, makes the child loop produce nodes that read as it and go on right behind it |
| RoundTrip.ElementParsed | src/tinyxml2/tinyxml2.cpp:1340-1363 | A printed element, with attributes, content, breaks and end tag, is taken as one child that reads as it |
| RoundTrip.AttributesParsed | src/tinyxml2/tinyxml2.cpp:1280-1335 | Printed attributes are read back in order with names and decoded values, up to either end of the tag |
| RoundTrip.PlainTextParsed | src/tinyxml2/tinyxml2.cpp:808-828 | Printed text that is not blank is read up to the markup behind it and decodes to itself |
| RoundTrip.LastTextHolds | src/tinyxml2/tinyxml2.cpp:1842-1888 | Text at the end of an element keeps breaks off until the end tag |
| Layouts.CompactIs | src/tinyxml2/tinyxml2.cpp:1782-1969 | In compact mode the output is the tags, markup and texts of the tree side by side, with nothing between them |
| Layouts.LaidOutIs | src/tinyxml2/tinyxml2.cpp:1782-1969 | Otherwise markup and end tags at depth d stand behind one line feed and 4 * d blanks, unless they are first or a text forbids it whose own element is still open, and an element at the top ends in one line feed |
| Layouts.BreakIs | src/tinyxml2/tinyxml2.cpp:1789-1792 | What is written at a break, and at the end of an element: nothing in compact mode, where text forbids it or at the beginning, else one line feed and four blanks for each level |
| Layouts.NestedExample | src/tinyxml2/tinyxml2.cpp:1782-1863 | The whole output of an element in an element, in both modes and for all names |
| PrintSpec.LayoutKept | src/tinyxml2/tinyxml2.cpp:1782-1798 | Printing a node never leaves the depth of text at or above the current depth, and after text at this depth breaks stay off, although closing a nested element with text resets the field |
| PrintSpec.NodeNoNul | src/tinyxml2/tinyxml2.cpp:1842-1969 | The output of a printable node is a C string |
| SaveAndLoad.Trip | src/tinyxml2/tinyxml2.cpp:1599-1631 | Printer object, parser object and lazy strings in a row: the same tree, no error, the byte order mark kept, and every string readable |
| Reload.SavedAndLoaded | src/tinyxml2/tinyxml2.cpp:1599-1631 | What the parser keeps of a text without ampersands, with or without an error, stands for a printable document, unless it is nothing or has plain text at the top; printed in either mode and parsed again, it stands for the same document |
| Reload.ListStands | src/tinyxml2/tinyxml2.cpp:730-805 | Whatever a list keeps of such a text stands for a printable list: legal and distinct names, clean strings free of their terminators, no two texts side by side |
| Reload.UniformFree | src/tinyxml2/tinyxml2.cpp:178-199 | Making line breaks uniform brings no terminator into a string that had none |
| Printers.XMLPrinter.constructor | src/tinyxml2/tinyxml2.cpp:1662-1685 | A new printer is at depth 0 with nothing printed, and its two tables flag exactly the characters to be escaped |
| Printers.XMLPrinter.PrintString | src/tinyxml2/tinyxml2.cpp:1732-1767 | Runs and entities written in turn are the escaped string |
| Printers.XMLPrinter.OpenElement | src/tinyxml2/tinyxml2.cpp:1782-1798 | Seals an open tag, breaks the line unless text, compact mode or the beginning forbids it, and pushes the name: depth stays the height of the stack. `Layouts.BreakIs` spells the break out |
| Printers.XMLPrinter.CloseElement | src/tinyxml2/tinyxml2.cpp:1842-1863 | Pops the name, closes in the short or the long form, and resets the depth of text exactly at its own depth |
| Printers.XMLPrinter.PushText | src/tinyxml2/tinyxml2.cpp:1873-1887 | Text is written without any break, in a section of its own or escaped, and marks its depth |
| Printers.XMLPrinter.Accept | src/tinyxml2/tinyxml2.cpp:1982-2024 | Visiting a node prints what the tree prescribes at this depth, and restores the stack |
| Printers.XMLPrinter.PrintTree | src/tinyxml2/tinyxml2.cpp:1625-1631 | The events of a whole traversal add up to the printed document, which is the tree side by side in compact mode and laid out by depth otherwise, with the stack empty again |
| Entities.EscapeUndone | src/tinyxml2/tinyxml2.cpp:1732-1767 | Reading an escaped string gives the string back, for attributes and for text, wherever it lies |
| Entities.EscapeSafe | src/tinyxml2/tinyxml2.cpp:1732-1767 | Escaped strings hold no raw terminator, and no carriage return or NUL that was not there |
| Entities.SumIsPositional | src/tinyxml2/tinyxml2.cpp:317-359 | Adding digits from the right with a wrapping 32-bit multiplier gives the positional value below 2^32 |
| Entities.Utf8RoundTrip | src/tinyxml2/tinyxml2.cpp:262-300 | The number can be read back from its UTF-8 bytes, which are all above 0x7F if there are several |
| Entities.EntityUnique | src/tinyxml2/tinyxml2.cpp:206-220 | At most one entity of the table matches at a place |
| Alphabet.KnownEntities | src/tinyxml2/tinyxml2.cpp:65-79 | The five entities by name and character, as they are read and as they are written |
| References.ReferenceIff | src/tinyxml2/tinyxml2.cpp:303-369 | The null pointer comes back exactly for the references that are malformed: no semicolon, unless the span ends with the `#`, or a byte that is no digit between the last mark and the first semicolon |
| References.DecodeBreaksIff | src/tinyxml2/tinyxml2.cpp:172-232 | The read cursor becomes null exactly if it comes to a malformed reference |
| References.WellFormedReads | src/tinyxml2/tinyxml2.cpp:161-239 | A string whose numeric references are all well formed, or that has none, can be read |
| References.MalformedExample | src/tinyxml2/tinyxml2.cpp:202-208 | A letter in place of digits breaks the reading: a concrete text |
| IdealReading.DecodeIsIdealIff | src/tinyxml2/tinyxml2.cpp:161-239 | The decoder reads a span as it is meant exactly if no step meets a stale byte, a final `&#`, a number that wraps or a malformed reference, or if a number that wraps to an ampersand and the ampersand lost at the end cancel out |
| IdealReading.TurnAndStep | src/tinyxml2/tinyxml2.cpp:172-232 | A turn of the loop goes on where the intended step does; it writes the intended bytes, or fails in one of three ways, each with its own effect |
| IdealReading.Lengths | src/tinyxml2/tinyxml2.cpp:161-239 | Failures lose one byte at most, the ampersand of a final `&#` |
| IdealReading.NothingCancels | src/tinyxml2/tinyxml2.cpp:172-232 | Without a `&#` at the end of the span no two failures cancel out |
| IdealReading.NumericReferenceIff | src/tinyxml2/tinyxml2.cpp:303-369 | A reference reads as the UTF-8 of the number it denotes exactly if the number does not wrap: in hexadecimal, if it is below 2^32 or its last 32 bits are at least 0x200000 |
| IdealReading.SumIsProducts | src/tinyxml2/tinyxml2.cpp:317-359 | The sum with the running 32-bit multiplier is that of the digits times the powers of their places, each product modulo 2^32 |
| IdealReading.HexProducts | src/tinyxml2/tinyxml2.cpp:317-336 | In hexadecimal the products never carry: the sum is the number modulo 2^32 |
| IdealReading.GrammaticalIff | src/tinyxml2/tinyxml2.cpp:311-361 | A reference that is read is one of the grammar of XML exactly if it has a digit and no other byte |
| IdealReading.StaleByteExample | src/tinyxml2/tinyxml2.cpp:221-225 | An unknown entity behind a shrunken one loses its ampersand: a concrete text |
| IdealReading.FinalExample | src/tinyxml2/tinyxml2.cpp:303-369 | The ampersand of a final `&#` is dropped |
| IdealReading.WrappedExample | src/tinyxml2/tinyxml2.cpp:317-336 | The reference to 2^32 + 0x41 reads as the letter A |
| IdealReading.LooseExample | src/tinyxml2/tinyxml2.cpp:338-358 | A reference with other bytes in front of its last mark is read |
| IdealReading.CancelExample | src/tinyxml2/tinyxml2.cpp:161-239 | A text with both failures that reads as it is meant |
| LineBreaks.LinesIff | src/tinyxml2/tinyxml2.cpp:178-199 | Without entities, the decoder normalises line breaks as the standard does exactly when each pair LF CR that it takes is followed by another LF |
| LineBreaks.StandardIff | src/tinyxml2/tinyxml2.cpp:178-199 | The same with entities in between: the intended reading agrees with the standard exactly then, and is never the longer of the two |
| LineBreaks.LostBreak | src/tinyxml2/tinyxml2.cpp:192-199 | LF CR loses a break: a concrete text |
| StrPairs.ConvertUTF32ToUTF8 | src/tinyxml2/tinyxml2.cpp:262-300 | Filling the output from its last byte on gives the UTF-8 bytes, and none from 0x200000 up |
| StrPairs.GetCharacterRef | src/tinyxml2/tinyxml2.cpp:303-369 | The scan back over the digits yields the specified reference, or null for the malformed ones |
| StrPairs.StrPair.ParseText | src/tinyxml2/tinyxml2.cpp:110-127 | Stops at the first terminator and records the span in front of it; null and no change at all without one |
| StrPairs.StrPair.ParseName | src/tinyxml2/tinyxml2.cpp:130-158 | Takes the longest run of name bytes behind a letter; null otherwise |
| StrPairs.StrPair.GetStr | src/tinyxml2/tinyxml2.cpp:161-239 | The first read leaves the decoded text and a terminator at the start of the span, a later one changes nothing, and no byte outside the span and its terminator changes; the cursor is lost exactly when the decoding comes to a malformed reference |
| StrPairs.StrPair.DecodeInPlace | src/tinyxml2/tinyxml2.cpp:172-232 | The write pointer never passes the read pointer, unread input stays intact, and what is written is the pure decoding, as long as the read pointer is not null |
| StrPairs.LazyStrings.Value | src/tinyxml2/tinyxml2.cpp:161-239 | Reading one string of a document leaves the meaning of all others as it was, and fails exactly if it has none |
| StrPairs.LazyStrings.ReadAll | src/tinyxml2/tinyxml2.cpp:161-239 | Strings read in any order and any number of times have the meaning of their spans; the reads get through exactly if all have one |
| Documents.XMLDocument.Parse | src/tinyxml2/tinyxml2.cpp:1599-1622 | On every C string: a null cursor is dereferenced exactly where the recursive description says so, and otherwise the tree and error are those described (for which bytes these are, see `SyntaxErrors.DocumentIff`), all strings lie undecoded and apart, the tree is sound, and as many chunks are live in each pool as there are nodes and attributes |
| Documents.XMLDocument.DeleteChildren | src/tinyxml2/tinyxml2.cpp:571-580 | All chunks of the tree go back: every pool is empty, as the destructor asserts |
| Documents.XMLDocument.ParseList | src/tinyxml2/tinyxml2.cpp:730-805 | The child loop, with its lazily written terminators, computes the specified list, terminates, writes only behind the cursor it was given and, unless it loses the cursor, accounts for every chunk |
| Documents.XMLDocument.ListTurn | src/tinyxml2/tinyxml2.cpp:750-802 | One child is kept or deleted with all its chunks; every error leaves the books as they were |
| Documents.XMLDocument.ParseElement | src/tinyxml2/tinyxml2.cpp:1340-1363 | An element and its open content are parsed as specified, or fail with an error without losing a chunk |
| Documents.XMLDocument.ParseAttributes | src/tinyxml2/tinyxml2.cpp:1280-1335 | Attributes are read until the tag ends, although names are compared in a buffer with terminators written into it and a duplicate has the value found decoded in place |
| Documents.XMLDocument.TakeAttribute | src/tinyxml2/tinyxml2.cpp:1292-1303 | One attribute is kept with its chunk; a name read before gives the chunk back, or loses the cursor when the value found is malformed |
| Documents.XMLDocument.Attribute | src/tinyxml2/tinyxml2.cpp:1148-1156 | Finds the first attribute of a name and decodes its value, within the bytes of the attributes only |
| Documents.XMLDocument.FindAttribute | src/tinyxml2/tinyxml2.cpp:1126-1145 | The first attribute of that name, although comparing terminates every name it passes |
| Documents.XMLDocument.Identify | src/tinyxml2/tinyxml2.cpp:452-525 | Chooses the kind of node by its first bytes and takes a chunk from the right pool |
| Documents.XMLDocument.CheckEndTag | src/tinyxml2/tinyxml2.cpp:778-794 | The end tag fits exactly when both names are equal, although comparing them terminates both in the buffer |
| Documents.XMLDocument.Strings | src/tinyxml2/tinyxml2.cpp:161-239 | After any parse that came back, the strings of the tree can be read in any order |
| Grammar.AttributeIff | src/tinyxml2/tinyxml2.cpp:995-1014 | An attribute is taken exactly where a name, white space, `=`, white space and a value between two equal quotes, double or single, stand, with exactly these two spans and this cursor |
| Grammar.NoAttributeIff | src/tinyxml2/tinyxml2.cpp:995-1014 | Anything else behind a letter is no attribute |
| Grammar.TagIff | src/tinyxml2/tinyxml2.cpp:1280-1335 | A tag ends exactly where attributes of distinct names stand one behind another and then `>` or `/>` |
| Grammar.NodeIff | src/tinyxml2/tinyxml2.cpp:452-525 | The child loop keeps a node exactly where its bytes stand: markup up to its first terminator, text up to a `<`, an element with its tag, its content and an end tag of the same name |
| Grammar.ListIff | src/tinyxml2/tinyxml2.cpp:730-805 | A list comes back with these children and this end tag exactly where they stand one behind another |
| SyntaxErrors.TagErrorIff | src/tinyxml2/tinyxml2.cpp:1280-1335 | A tag fails with an error exactly where, behind distinct attributes, there is neither a letter nor the end of a tag, or a letter but no attribute of a new name |
| SyntaxErrors.ErrorIff | src/tinyxml2/tinyxml2.cpp:730-805 | A list stops with these children and this error exactly where the children stand, and then what this error is for, at whatever depth: a comment, declaration, section or other markup without its end, text without a `<`, a missing name, a broken tag, another end tag or none |
| SyntaxErrors.DocumentIff | src/tinyxml2/tinyxml2.cpp:1599-1622 | A parse comes back with this buffer, these children and this error exactly for the texts in which they stand behind white space and a byte order mark |
| SyntaxErrors.QuotesExample | src/tinyxml2/tinyxml2.cpp:1006-1014 | An element with one attribute, in single or double quotes, from the text to the value read |
| SyntaxErrors.CommentExample | src/tinyxml2/tinyxml2.cpp:867-876 | A comment without an end gives the error of a comment |
| ParserProperties.KeptTreeSound | src/tinyxml2/tinyxml2.cpp:757-803 | After any parse, failed or not, each element kept was self-closed or closed by a later end tag of the same name, and its attribute names differ |
| ParserProperties.ListSound | src/tinyxml2/tinyxml2.cpp:730-805 | The same for every list of children, and the end tag handed up is one |
| ParserProperties.AttributesDistinct | src/tinyxml2/tinyxml2.cpp:1280-1335 | No tag keeps two attributes of one name |
| ParserProperties.TreeApart | src/tinyxml2/tinyxml2.cpp:110-158 | No two strings of a parsed document share a byte or a terminator, so a terminator never lands in another string |
| ParserProperties.ListApart | src/tinyxml2/tinyxml2.cpp:730-805 | Strings lie in document order inside what their list consumed |
| BrokenTags.TagBreaksIff | src/tinyxml2/tinyxml2.cpp:1280-1335 | Reading a tag loses the cursor exactly if its attributes, one behind another, are distinct up to one that repeats the name of an earlier one whose value comes to a malformed reference |
| BrokenTags.ListBreaksIff | src/tinyxml2/tinyxml2.cpp:730-805 | The child loop loses the cursor exactly if it comes to such a tag, at whatever depth |
| BrokenTags.DocumentBreaksIff | src/tinyxml2/tinyxml2.cpp:1599-1622 | So does the parse of a document |
| BrokenTags.NoReferenceNoBreak | src/tinyxml2/tinyxml2.cpp:1599-1622 | A text without numeric references is always parsed to an end |
| BrokenTags.BrokenExample | src/tinyxml2/tinyxml2.cpp:1299-1303 | A concrete text on which the parser dereferences a null cursor |
| TopLevel.ClosedIff | src/tinyxml2/tinyxml2.cpp:767-774 | A list hands an end tag up exactly if, behind nodes that it keeps, it comes to one that none of them opened |
| TopLevel.StoppedIff | src/tinyxml2/tinyxml2.cpp:750-756 | A list ends without an error exactly if only white space is left behind the nodes that it keeps |
| TopLevel.ReadWholeIff | src/tinyxml2/tinyxml2.cpp:1599-1622 | A document without an error was read to its end exactly if no unopened end tag stands behind its nodes |
| TopLevel.NoErrorIff | src/tinyxml2/tinyxml2.cpp:1599-1622 | There is no error exactly if the text ends in white space behind its nodes or comes to such an end tag |
| TopLevel.ListAgrees | src/tinyxml2/tinyxml2.cpp:730-805 | A list that hands up an end tag is the same in every text that agrees with this one up to behind that tag |
| TopLevel.RestIgnored | src/tinyxml2/tinyxml2.cpp:767-774 | Behind an unopened end tag a document may go on with any text: same children, no error |
| TopLevel.EndTagExample | src/tinyxml2/tinyxml2.cpp:767-774 | An end tag and a letter parse to no children and no error |
| Scanner.NamesEqual | src/tinyxml2/tinyxml2.cpp:788-793 | Comparing two flushed names byte by byte decides whether the names are equal |
| Scanner.SkipWhiteSpace | src/tinyxml2/tinyxml2.h:366-367 | Stops at the first byte that is no white space |
| Scanner.StartsWith | src/tinyxml2/tinyxml2.h:369-380 | Decides whether a header stands at the cursor without running past the terminator |
| MemPools.MemPool.Alloc | src/tinyxml2/tinyxml2.h:261-286 | Hands out a chunk that is not live; the free list stays acyclic and apart from the live chunks |
| MemPools.MemPool.Free | src/tinyxml2/tinyxml2.h:287-298 | Takes a live chunk back, or ignores null; any order of calls keeps the list acyclic |
| MemPools.MemPool.NewBlock | src/tinyxml2/tinyxml2.h:262-272 | Chains a new block into a free list of all its chunks |
| MemPools.MemPool.Write | src/tinyxml2/tinyxml2.h:261-286 | A client may write what it likes into its own chunk without harming the free list |
| MemPools.ChunksAccounted | src/tinyxml2/tinyxml2.h:246-309 | Live and free chunks add up to the chunks of all blocks |
| NodePools.Pools.Alloc | src/tinyxml2/tinyxml2.cpp:452-525 | A chunk is booked in one of four pools |
| NodePools.Pools.DeleteNode | src/tinyxml2/tinyxml2.cpp:571-605 | Deleting a node gives back its attributes, its children and itself, and nothing else |
| NodePools.Pools.DeleteChildren | src/tinyxml2/tinyxml2.cpp:571-580 | Deleting a list gives back exactly the chunks it owns |
| NodePools.FitsListSize | src/tinyxml2/tinyxml2.cpp:1433-1449 | Memory that fits a tree has as many chunks of each kind as the tree has nodes and attributes |
| Siblings.XMLNode.InsertEndChild | src/tinyxml2/tinyxml2.cpp:608-628 | Appends to the child sequence; all five links of every node describe it again |
| Siblings.XMLNode.InsertFirstChild | src/tinyxml2/tinyxml2.cpp:631-652 | Puts a node in front of the child sequence |
| Siblings.XMLNode.InsertAfterChild | src/tinyxml2/tinyxml2.cpp:655-673 | Inserts behind a child, and gives null without change for a node that is none |
| Siblings.XMLNode.InsertBetween | src/tinyxml2/tinyxml2.cpp:666-671 | The five assignments between two neighbours insert at that place |
| Siblings.XMLNode.Unlink | src/tinyxml2/tinyxml2.cpp:583-598 | Removes a child from the sequence and clears its parent only |
| Siblings.XMLNode.DeleteChildren | src/tinyxml2/tinyxml2.cpp:571-580 | Unlinks every child, first to last, and ends with an empty list |
| Siblings.XMLNode.Position | src/tinyxml2/tinyxml2.cpp:583-673 | Every child links to its own neighbours and parent; only the outermost have a null link |
| Siblings.InsertEndAndUnlink | src/tinyxml2/tinyxml2.cpp:583-628 | Inserting a node at the end and unlinking it leaves every link of the list as it was |
| Siblings.InsertAfterAndUnlink | src/tinyxml2/tinyxml2.cpp:583-673 | And so does inserting it behind any child |
| EditDistance.CalculateOptimalEdits | googletest/src/gtest.cc:1028-1082 | The table and the walk back through it yield the specified path, without leaving the table |
| EditDistance.FillTable | googletest/src/gtest.cc:1048-1071 | Each cell holds cost and move of its pair of prefixes |
| EditScripts.ScriptReplays | googletest/src/gtest.cc:1073-1082 | Replaying the path of any cell turns the prefix of left into the prefix of right |
| EditScripts.ScriptCost | googletest/src/gtest.cc:1028-1082 | Each cell is exactly the price of the path read back from it |
| EditScripts.CostBound | googletest/src/gtest.cc:1048-1071 | No cell exceeds replacing the shorter prefix and adding or removing the rest |
| EditScripts.FreeIff | googletest/src/gtest.cc:1048-1071 | A cell is free exactly when its prefixes are equal |
| EditScripts.BorderMoves | googletest/src/gtest.cc:1034-1046 | Moves never leave the table, and a match stands exactly at equal elements |
| EditScripts.LeastBelow | googletest/src/gtest.cc:1028-1082 | No script between two prefixes is cheaper than the least price |
| EditScripts.LeastAttained | googletest/src/gtest.cc:1028-1082 | And some script has that price |
| EditScripts.LeastEverywhereIff | googletest/src/gtest.cc:1058-1069 | The table holds least prices throughout exactly when no cell takes the replacement while adding or removing costs no more |
| EditScripts.CheapestIf | googletest/src/gtest.cc:1028-1082 | Then no script undercuts the one returned |
| EditScripts.CheapestIff | googletest/src/gtest.cc:1028-1082 | No script undercuts the one returned exactly when, at every cell the walk back visits, none of the three neighbours is a cheaper way than the move taken |
| EditScripts.TightPathIff | googletest/src/gtest.cc:1058-1082 | Any cell holds its least price exactly when the walk back from it visits such cells only |
| EditScripts.UndercutCell | googletest/src/gtest.cc:1058-1082 | If some script undercuts the one returned, the walk back visits a cell that is overlooked, or that has a neighbour above its least price |
| EditScripts.NotTheCheapest | googletest/src/gtest.cc:1058-1069 | Two replacements are returned for two elements in exchanged order, where a removal and an addition do |
| EditScripts.ScriptExamples | googletest/src/gtest.cc:1028-1082 | The scripts for one line added, removed or replaced, and for two lines in exchanged order, with their costs |
| EditScripts.InternalStrings.GetId | googletest/src/gtest.cc:1090-1095 | Equal strings, and no others, get equal ids; earlier ids stay |
| EditScripts.CalculateOptimalEditsOfStrings | googletest/src/gtest.cc:1104-1118 | Interning does not matter: the script turns the list left into the list right, at the cost in the table |
| DiffText.CreateUnifiedDiff | googletest/src/gtest.cc:1203-1263 | What is read from the text, applied in order to left with every position, length and line checked, gives right exactly when there is context or the lists are equal; each hunk has exactly its context, and all together remove and add as many lines as the edit script; without context the text is empty |
| UnifiedDiff.WriteHunks | googletest/src/gtest.cc:1203-1263 | The hunks written are ordered and disjoint, name their ranges with lines numbered from one, have removals in front of additions, and patch left to right exactly when there is context or the lists are equal. In front of its first edit and behind its last one each has as many common lines as there are, up to the context; two edits are in one hunk exactly when fewer than two contexts of common lines are between them; and the removals and additions are as many as in the edit script |
| UnifiedDiff.NextHunk | googletest/src/gtest.cc:1210-1261 | One hunk continues the applied part up to where the script stands, has exactly its context, does not reach back into the hunk before and leaves room for the next |
| UnifiedDiff.FillHunk | googletest/src/gtest.cc:1227-1252 | Both sides of the hunk stay the segments of left and right up to the cursor, and its changes those of the script; it ends with just as many common lines as the context and no close edit, or at the end |
| UnifiedDiff.OpenHunk | googletest/src/gtest.cc:1211-1223 | The hunk begins with the context in front of the next edit, as much of it as there is, which is the same on both sides |
| UnifiedDiff.Hunk.PushLine | googletest/src/gtest.cc:1135-1151 | The line joins one or both sides although removals are moved in front of additions; the counters count the lines |
| UnifiedDiff.Hunk.PrintTo | googletest/src/gtest.cc:1153-1190 | Both ranges have the lengths of the sides, and removals stand in front of additions in every group of edits |
| UnifiedDiff.HereStep | googletest/src/gtest.cc:1237-1251 | One step of the walk consumes lines that are there, and a match finds equal lines |
| UnifiedDiff.NextMark | googletest/src/gtest.cc:1230-1252 | One line more keeps the number of common lines at the beginning, counts those at the end, and bounds those between two edits |
| DiffText.DiffRead | googletest/src/gtest.cc:1153-1190 | The text of a diff determines its hunks: headers, numbers and lines are read back |
| DiffText.TextPatches | googletest/src/gtest.cc:1203-1263 | For lines without line feeds, the text of a diff from left to right reads back as the hunks that patch |
| DiffText.HunkExample | googletest/src/gtest.cc:1153-1190 | The whole text of a hunk with two common lines and a replaced one, for all lines |
| SimpleRegex.ReadIff | googletest/src/gtest-port.cc:681-733 | The texts that read are exactly those of the regular expressions of the syntax, each in one way |
| SimpleRegex.ValidateRegex | googletest/src/gtest-port.cc:681-733 | Accepts exactly the regular expressions |
| SimpleRegex.ValidIsReadable | googletest/src/gtest-port.cc:694-729 | The flag for repeatable tokens makes the loop agree with the grammar |
| SimpleRegex.MatchRepetitionAndRegexAtHead | googletest/src/gtest-port.cc:744-766 | True exactly when some admissible number of repetitions and the rest match a prefix |
| SimpleRegex.MatchRegexAtHead | googletest/src/gtest-port.cc:771-797 | True exactly when a prefix, or all if the end is anchored, is in the language |
| SimpleRegex.MatchRegexAnywhere | googletest/src/gtest-port.cc:807-820 | True exactly when a substring that respects both anchors is in the language; false for null pointers |
| SimpleRegex.HeadSplits | googletest/src/gtest-port.cc:744-766 | A repeated piece and what follows match a string exactly when it splits at some count |
| RegexClasses.ClassIff | googletest/src/gtest-port.cc:655-676 | Which characters a legal atom matches, by their codes: digits, word characters, white space and their complements, five control characters, anything but a line feed, or itself only |
| RegexClasses.LegalIff | googletest/src/gtest-port.cc:636-651 | Which characters may stand alone, behind a backslash and as a repetition, by their codes |
| RegexClasses.LanguageIff | googletest/src/gtest-port.cc:744-797 | The language of legal pieces by the codes of the characters |
| RegexClasses.AnywhereIff | googletest/src/gtest-port.cc:807-820 | A match anywhere by the codes of the characters |
| RegexClasses.ReadExample | googletest/src/gtest-port.cc:681-733 | How a text with anchors, an escape sequence and a repetition is read |
| RegexClasses.DigitExample | googletest/src/gtest-port.cc:657 | The class of digits is found in a digit and not in a letter |
| RegexClasses.AnchorExample | googletest/src/gtest-port.cc:807-820 | A caret binds a match to the beginning of the string and a dollar sign to its end |
| RegexMatch.RE.Init | googletest/src/gtest-port.cc:841-871 | Valid exactly for regular expressions; the full pattern is the text with both anchors |
| RegexMatch.BuildFull | googletest/src/gtest-port.cc:853-871 | The buffer is large enough and ends up with the anchored text |
| RegexMatch.FullReads | googletest/src/gtest-port.cc:853-871 | The full pattern has the same pieces, and a second anchor unless the text ends in an escaped dollar sign |
| RegexMatch.RE.PartialMatch | googletest/src/gtest-port.cc:836-838 | True exactly when a substring that respects both anchors is in the language |
| RegexMatch.RE.FullMatch | googletest/src/gtest-port.cc:830-832 | True exactly when the whole string, or a prefix behind an escaped dollar sign, is in the language |
| RegexMatch.FullMatchIff | googletest/src/gtest-port.cc:867-868 | Full matching is membership in the language exactly for texts that do not end in an escaped dollar sign |
| RegexMatch.Overmatch | googletest/src/gtest-port.cc:867-868 | For each text that does, a string is accepted that is not in the language |
| RegexMatch.OvermatchExample | googletest/src/gtest-port.cc:867-868 | There is such a text: an escaped dollar sign alone accepts one with a letter behind it |
| Filters.PatternIff | googletest/src/gtest.cc:462-477 | The recursive wildcard matcher is true exactly when the string can be cut into parts that the characters of the pattern stand for |
| Filters.MatchesFilter | googletest/src/gtest.cc:479-498 | True exactly when some pattern of the list matches |
| Filters.FilterMatchesTest | googletest/src/gtest.cc:502-528 | The part in front of the dash selects, all if it is empty, and the part behind deselects |
| Filters.FilterForms | googletest/src/gtest.cc:502-528 | A filter without a dash, with nothing in front of it, and with both parts |
| Filters.DeathTestNames | googletest/src/gtest.cc:165 | Death test cases are those whose names end in DeathTest or have it in front of a slash |
| Filters.DisabledNames | googletest/src/gtest.cc:160 | Disabled are the names that begin with the mark or have it behind a slash |
| Shuffling.Random.Generate | googletest/src/gtest.cc:311-325 | One step of the generator, with its two constants and the reduction below 2^31, and then below the range |
| Shuffling.ShuffleRange | googletest/src/gtest-internal-inl.h:312-329 | The loop of swaps is the shuffle determined by the numbers drawn |
| Shuffling.FirstNumbers | googletest/src/gtest.cc:313 | The first four numbers from seed 1 |
| Shuffling.ShuffleExample | googletest/src/gtest-internal-inl.h:312-329 | How they shuffle four elements |
| Shuffling.FisherPermutes | googletest/src/gtest-internal-inl.h:312-329 | It permutes the range and touches nothing else |
| Shuffling.FisherInjective | googletest/src/gtest-internal-inl.h:321-328 | Different draws give different orders of distinct elements |
| Shuffling.FisherOnto | googletest/src/gtest-internal-inl.h:321-328 | Every order of the range is reached by some draws |
| Registry.ShuffleKeepsSplit | googletest/src/gtest.cc:4939-4945 | Shuffling one side of a split order keeps both sides permutations of their own numbers |
| Registry.SplitIs | googletest/src/gtest-internal-inl.h:577-587 | Such an order has every number once, on its side |
| Registry.TestCase.AddTestInfo | googletest/src/gtest.cc:2753-2756 | Adds a test behind the others and keeps the indices an order of the tests |
| Registry.TestCase.ShuffleTests | googletest/src/gtest.cc:2793-2795 | Permutes the order of the tests by what the generator draws |
| Registry.TestCase.UnshuffleTests | googletest/src/gtest.cc:2798-2802 | Restores the order of registration |
| Registry.TestCase.Run | googletest/src/gtest.cc:2759-2784 | Runs every test that is to run once, in the current order, and none if the test case is not to run |
| Registry.UnitTestImpl.GetTestCase | googletest/src/gtest.cc:4502-4535 | Finds the only test case of a name or registers a new one; death test cases stay a prefix |
| Registry.UnitTestImpl.ShuffleTests | googletest/src/gtest.cc:4939-4951 | Shuffles death test cases, others and the tests inside each by consecutive draws, keeping death test cases in front |
| Registry.ShuffleExample | googletest/src/gtest.cc:4939-4951 | What the first four numbers from seed 1 decide on: death test cases, the others, and the tests of one test case after another |
| Registry.UnitTestImpl.UnshuffleTests | googletest/src/gtest.cc:4954-4961 | Restores the order of registration everywhere |
| Registry.UnitTestImpl.GetMutableTestCase | googletest/src/gtest-internal-inl.h:584-587 | The test case at a place of the current order; null outside |
| TestRuns.FilterTests | googletest/src/gtest.cc:4789-4840 | Marks each test as its place among the runnable ones says, each test case if it has a marked test, and counts the marked ones |
| TestRuns.CanRunIff | googletest/src/gtest.cc:4803-4818 | A test can run if its full name is selected, and if neither name is marked as disabled or that is overruled |
| TestRuns.WantedInAll | googletest/src/gtest.cc:4803-4837 | The choice for a test is that for its place among the tests of all test cases |
| TestRuns.RunTestCases | googletest/src/gtest.cc:4645-4651 | The selected tests run in the current order of test cases and tests, each once, those of death test cases first |
| TestRuns.RunAllTests | googletest/src/gtest.cc:4618-4682 | In each iteration exactly the selected tests run, each once and death test cases first: in the order of registration without shuffling, and otherwise in the order that the shuffle from the seed of the iteration makes of it, the k-th seed being (seed - 1 + k) % 99999 + 1; then the order of registration is back |
| TestRuns.RegistrationIs | googletest/src/gtest.cc:4645-4651 | In the order of registration, the tests that run are the selected ones of each test case as they were registered, one test case after another |
| TestRuns.NextSeed | googletest/src/gtest-internal-inl.h:152-158 | Going on from seed to seed yields the k-th seed |
| Shards.ExactlyOneShard | googletest/src/gtest.cc:4778-4780 | A test runs on some shard exactly when it is runnable, and on one only |
| Shards.ShardSize | googletest/src/gtest.cc:4820-4830 | The size of a shard is a quotient of the number of runnable tests |
| Shards.EvenShards | googletest/src/gtest.cc:4820-4830 | Two shards differ by one test at most, and no later shard is larger |
| Shards.ShardsAddUp | googletest/src/gtest.cc:4820-4830 | All shards together run as many tests as are runnable |
| CharacterData.OutputXmlCDataSection | googletest/src/gtest.cc:3588-3605 | Writes one section for each piece between terminators and each terminator as escaped text |
| CharacterData.SectionsExample | googletest/src/gtest.cc:3588-3605 | What is written for one terminator, and for none, between any strings without brackets |
| CharacterData.SectionsParsed | src/tinyxml2/tinyxml2.cpp:808-828 | Anywhere inside an element, tinyxml2 reads the report's sections as text nodes whose values together are the data, exactly when it has no carriage return |
| CharacterData.ReadBackIff | src/tinyxml2/tinyxml2.cpp:178-191 | What is read back is the data with uniform line breaks, which is the data itself exactly if it has no carriage return |
| CodePoints.CodePointToUtf8 | googletest/src/gtest.cc:1753-1786 | Agrees with the encoder of tinyxml2 exactly from 1 to 0x1FFFFF, and with the comment above it for all numbers but 0 and those from 0x110000 to 0x1FFFFF; zero gives the empty string |

## Left out

- Documents.XMLDocument.Parse: the nodes of a document are values beside the chunks they own; the links between
  sibling nodes are proved separately, in `Siblings`. Nothing is promised about pools and tree once a null cursor
  has been dereferenced.
- Printers.XMLPrinter.Accept: text among the children of the document itself is printed, but such documents are not
  printable: the parser may read it differently.
- EditDistance.CalculateOptimalEdits: the costs 1 and 1.00001 are exact integers in hundred-thousandths, so rounding
  of sums of floating-point numbers is not modelled.
- StrPairs.GetCharacterRef: an `unsigned long` of 32 bits, which wraps at 2^32, is not modelled.
- Shuffling.ShuffleRange: the shuffled vector is returned as a value instead of changed through a pointer.
- TestRuns.RunAllTests: fixtures, failures, listeners, listing and endless repetition are left out; the environment
  variables for sharding come as a parameter, already checked by `ShouldShard`.
- UnifiedDiff.Hunk.PushLine: lines hold no NUL byte, where the program would cut them.
- `StrPair::SetStr` and ownership of strings outside the buffer, `processEntities == false`, cloning and comparing nodes.
- `DynArray`: the buffer and the stack of the printer are sequences.
- Reading and writing files, `snprintf` and `sscanf`, numeric attributes and texts, handles and queries.
- POSIX regular expressions, wide strings, surrogate pairs, locales.
- The const `UnitTestImpl::GetTestCase`, which checks the order but does not use it.
- Death test processes, assertion macros, matchers, printers of values, parameterized tests, flags and their help.
- The Mindroid runtime and its examples: they hold no algorithm to prove things about in the parts that are there.
