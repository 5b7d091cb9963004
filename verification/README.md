# Verified models of libarea and libxml2

This Dafny project models the device-numbering engine of `libarea` and eight parts of the libxml2 sources that are
vendored beside it, and proves what each of them promises. Each area is a group of modules:

- **Device numbering** (`Area*.dfy`). A mixed-radix enumeration of buildings, cells, floors, rooms and devices, and the
  addresses made from it. Main results: numbering is a bijection between the local devices of a network and 1..N, in
  the order of buildings, cells, floors and rooms; the numbers of all devices of a network have no gap, and identify
  the device, under exact conditions on the first indexes and networks of the guard groups; and addresses keep devices
  apart exactly within a bound.
- **Canonical XML** (`C14n*.dfy`, `ByteOrder.dfy`, `Quoting.dfy`). The stack of rendered namespaces with save, shift and
  restore, the namespace and attribute axes and the recursion over the document. Main results: the output is the
  canonical form of the document (section 2.3 of Canonical XML 1.0), which keeps every meaning and declares no more than
  any document with the same meaning; its bytes are equal for two documents if and only if they say the same, unless a
  namespace URI has both kinds of quotes; and namespaces and attributes stand in the order of their bytes.
- **String interning** (`Dict*.dfy`). A table with inline heads and chains, two hash regimes, growth, a read-only
  sub-dictionary and string pools. Main result: over any run of lookups on the two it is a map from strings to stable
  pointers, shared between them exactly where the upper one does not hold the string itself, and refuses a string only
  for its length or when it is full.
- **Text coalescing** (`Sax*.dfy`). The SAX callbacks with the cached length and capacity of the text being collected.
  Main result: any run of callbacks leaves in memory the document that the events describe, whose children follow from
  the events alone, and no interned string ever changes.
- **Catalog resolution** (`Catalog*.dfy`). Mutually recursive lookup over catalog files that are loaded on demand. Main
  results: it terminates on every catalog graph, cyclic ones included, and for every identifier, nested URNs included;
  without cycles it computes the resolution rules on the lists in memory, and the counters cannot be noticed; what was
  loaded before cannot be noticed either where files are settled, and can in two concrete cases where they are not.
- **Buffers** (`Buf*.dfy`). Five allocation schemes, a gap in front of the contents, compatibility fields. Main result:
  any run of operations acts on a plain byte string.
- **Transcoding** (`Transcoding.dfy`, `Utf8.dfy`, `Utf16*.dfy`, `CharEnc*.dfy`, `References.dfy`). The
  converters between UTF-8 and ASCII, ISO Latin 1 and UTF-16LE, and the retry loop that puts in character references.
  Main results: every converter is exact on streams that are cut anywhere, round trips return the input, and the retry
  loop terminates and does not change what the text means.
- **Tree walk** (`Doc*.dfy`, `ShellDu.dfy`). Main result: the pointer walk visits exactly the paths of the tree in
  document order, each node once.
- **Escaping** (`Entities.dfy`, `Escapes.dfy`, `TranslationBuffer.dfy`). Main result: the output can be read back if and
  only if the input consists of characters of XML.

`Octets.dfy` and `Common.dfy` hold what several groups share, and `Spelling.dfy` says what encoded characters, numerals
and references are. Objects that the sources update in place are classes whose methods are proved against specification
functions; what the sources promise is proved about those functions, and what each of them stands for is stated a second
time in other terms (positions, literal strings, place values). Bytes are the integers 0..255; shifts and masks are
written as arithmetic, except in the 32-bit hash, which uses bit-vectors. All integers are unbounded, so widths appear
as explicit conversions or as bounds in the contracts.

## Where the code does not do what its text suggests

Each of these is modelled as it is coded, with a lemma or contract that says exactly when it matters.

- The packing macro shifts the cell by 28 bits in 32-bit arithmetic and loses cells above 15 (`AreaModel.PackUnpack`).
- The building search compares the area number with the end of the building range (`AreaNumbering.AreaIndexCondition`).
- A guard group counts the groups in front of it even when they are on another network, which leaves a gap
  (`AreaAddresses.NoGaps`, `AreaAddresses.GapBehindOtherNetwork`).
- Addresses repeat past 508 because of the clamp of the last octet (`AreaAddresses.SeparationBound`).
- `xmlBufCCat` overwrites characters when it has to make room in the middle of a string (`Buf.XmlBuf.CCat`).
- `xmlBufSetAllocationScheme` returns -1 although it switched to the IO scheme (`Buf.XmlBuf.SetScheme`).
- `xmlBufAddLen` fails half way for a request of all free bytes (`Buf.XmlBuf.AddLen`).
- `xmlEncodeEntitiesInternal` does not escape the quotation mark, unlike its comment says, and loses characters outside
  XML (`Entities.EscapingIsInvertible`).
- Namespace URIs are quoted but not escaped in canonical output, so that some are written alike
  (`Quoting.QuotedIdentifies`, `C14nPrint.OutputCollides`).
- A catalog file keeps the preference of the entry that loaded it first, and a delegate whose file is missing counts only
  until it was asked, so that earlier lookups may be noticed (`CatalogOrder.LoaderIsNoticed`,
  `CatalogOrder.MissingIsNoticed`).
- Chunks of text past 10,000,000 bytes are refused, but not right after an entity was copied
  (`SaxDocument.ChunkLost`).

## Model

| member | source | states |
|---|---|---|
| `AreaModel.PackUnpack` | app/src/main/cpp/libarea/area.h:87-119 | packing the seven fields of a machine code and unpacking them loses exactly the upper eight bits of the cell, so the fields come back if and only if the cell is below 16 |
| `AreaModel.CalculationBuildMachineNumber` | app/src/main/cpp/libarea/area.c:390-405 | a building total is the sum over its cell entries of range length times the devices of one cell |
| `AreaModel.MachineInfo.InitMachineInfo` | app/src/main/cpp/libarea/area.c:560-817 | a rejected code returns 0 and leaves the record alone; an accepted one sets the fields of the record, the running number and the address, octet by octet, which stays as it was when the number is not positive or no network entry matches |
| `AreaModel.MachineInfo.Check` | app/src/main/cpp/libarea/area.c:585-665 | the validity check of the parameters, as a predicate on the code |
| `AreaModel.MachineInfo.NumberDevice` | app/src/main/cpp/libarea/area.c:740-810 | the nested counting loops compute the tally of the devices in front |
| `AreaModel.MachineInfo.CalculationIP` | app/src/main/cpp/libarea/area.c:406-443 | address, gateway and mask that follow from the running number, for the last matching network entry, octet by octet |
| `AreaModel.AddressSpelledOut` | app/src/main/cpp/libarea/area.c:413-433 | the first two octets are those of the start; the number is added to the last one, 255 carries into the third, and 0 and 255 become 1; a mask octet is 255 where start and end agree, else what the end lacks to 256, and the last is 0 |
| `AreaNumbering.TallyIsOrdinal` | app/src/main/cpp/libarea/area.c:740-810 | what the counting loops accumulate is the position of the device in the two-level mixed-radix enumeration of its network |
| `AreaNumbering.NumberThenDevice` | app/src/main/cpp/libarea/area.c:585-816 | every accepted room, cell-door or house-door device has a number in 1..N, and decoding the number gives back the device |
| `AreaNumbering.DeviceThenNumber` | app/src/main/cpp/libarea/area.c:585-816 | every number in 1..N is the number of an accepted device of that network: with the previous row, a bijection |
| `AreaOrder.NumberingOrder` | app/src/main/cpp/libarea/area.c:740-810 | of two local devices of a network the one with the smaller number is in the earlier building, cell, floor and room, with the doors of a cell first and confirmation doors in front of indoor stations: with the two previous rows the numbering is determined |
| `AreaOrder.SiblingsCounted` | app/src/main/cpp/libarea/area.c:759-804 | index and number of the record are the position of the device among its siblings and their count: exactly the indexes 1 to the count are accepted |
| `AreaOrder.CodeExample` | app/src/main/cpp/libarea/area.h:87-119 | the digits of a machine code, field by field |
| `AreaNumbering.AreaIndexCondition` | app/src/main/cpp/libarea/area.c:592-606 | an existing device is accepted and numbered on its own network if and only if its area number does not exceed the end of the building range, which is what the search compares it with |
| `AreaAddresses.CarriedNumbers` | app/src/main/cpp/libarea/area.c:667-810 | the numbers carried by the accepted devices of a network are those of four ranges: the local devices and the three guard groups, each behind the counts of all groups in front of it |
| `AreaAddresses.AllOnOneNetwork` | app/src/main/cpp/libarea/area.c:694-722 | with all three groups on the network and every first index 1 its devices carry exactly 1, 2, ... up to their total |
| `AreaAddresses.GroupFollowsOn` | app/src/main/cpp/libarea/area.c:694-722 | the devices of a guard group carry exactly the numbers behind those in front of them on their network if and only if the first index and the counts of the groups of other networks in front make up 1 |
| `AreaAddresses.NoGaps` | app/src/main/cpp/libarea/area.c:694-722 | the numbers carried on a network have no gap if and only if each group with devices on it begins inside or right behind the local devices or a group that begins before it |
| `AreaAddresses.GapBehindOtherNetwork` | app/src/main/cpp/libarea/area.c:709-717 | groups that all start at 1 leave a gap when one in front of another is on another network |
| `AreaAddresses.NumberRange` | app/src/main/cpp/libarea/area.c:667-810 | every number lies in the range of its kind of device; when groups start at 1, guard devices come after all local ones |
| `AreaAddresses.NumberIdentifies` | app/src/main/cpp/libarea/area.c:667-810 | on one network positive numbers identify the device, local and guard devices together, if and only if no two of the four ranges meet |
| `AreaAddresses.NumberIgnoresRecord` | app/src/main/cpp/libarea/area.c:725-810 | what the record held before has no influence on the number of a local device |
| `AreaAddresses.LastOctet` | app/src/main/cpp/libarea/area.c:418-421 | the last octet of an address is between 1 and 254 |
| `AreaAddresses.SeparationBound` | app/src/main/cpp/libarea/area.c:418-425 | addresses keep devices 1..count apart if and only if start octet plus count is at most 508, or 763 when the start octet is 255 |
| `AreaAddresses.DistinctAddresses` | app/src/main/cpp/libarea/area.c:406-443 | the devices of a network that get an address get different ones when no two ranges meet and the start octet plus the highest number carried there stays in that bound; without gaps in the numbers, only then |
| `AreaBlocks.UnrankRank` | app/src/main/cpp/libarea/area.c:376-405 | decoding the rank of a slot in a list of repeated blocks gives the slot |
| `AreaBlocks.RankUnrank` | app/src/main/cpp/libarea/area.c:376-405 | every number up to the total is the rank of the slot it decodes to |
| `C14n.Canonicalize` | app/src/main/cpp/libxml2/c14n.c:1868-1950 | a document without relative namespace URIs is written out as its canonical form, attributes included, in which every start tag lists its declarations by the bytes of their prefixes and its attributes by the bytes of URI and name; otherwise -1 |
| `C14n.Canonicalizer.ProcessElementNode` | app/src/main/cpp/libxml2/c14n.c:1416-1512 | the output is the canonical form of the element in the scope of its parent, and afterwards the three cursors and all live stack entries are as before |
| `C14n.Canonicalizer.ProcessNamespacesAxis` | app/src/main/cpp/libxml2/c14n.c:602-673 | the whole axis of the element is pushed, and exactly the bindings that differ from the parent's are printed, in the byte order of their prefixes |
| `C14n.Canonicalizer.ConsiderDeclaration` | app/src/main/cpp/libxml2/c14n.c:625-641 | one declaration of the axis walk: shadowed ones are skipped, the others pushed, and listed unless already rendered |
| `C14n.Canonicalizer.NoDefaultAnywhere` | app/src/main/cpp/libxml2/c14n.c:653-660 | on a fully visible tree the separate xmlns="" is never due |
| `C14n.VisibleNsStack.Find` | app/src/main/cpp/libxml2/c14n.c:413-444 | the downward search of the stack as a function of its live entries |
| `C14n.LookupMeansSame` | app/src/main/cpp/libxml2/c14n.c:413-444 | that search answers whether the parent binds the prefix to the same URI |
| `C14n.SearchIsScope` | app/src/main/cpp/libxml2/tree.c:5999-6072 | the nearest declaration found for a prefix is the binding in force |
| `C14n.ListInsert` | app/src/main/cpp/libxml2/list.c:272-294 | insertion keeps the list strictly ascending by prefix, in the order of `ByteOrder.LessMeans`, and adds one entry |
| `ByteOrder.LessMeans` | app/src/main/cpp/libxml2/xmlstring.c:132-143 | of two strings the smaller one is a proper front of the other, or has the smaller byte at the first position where they differ |
| `C14nOrder.CanonicalInOrder` | app/src/main/cpp/libxml2/c14n.c:882-918 | in a canonical form prefixes ascend (lines 516-527), attributes without a namespace come first by name, the others by URI and then by name, as a fact about the bytes at their positions |
| `C14nTree.CanonicalKeepsMeaning` | app/src/main/cpp/libxml2/c14n.c:602-673 | in the canonical form every prefix means at every element what it meant in the input (section 2.3 of Canonical XML 1.0) |
| `C14nTree.CanonicalIsMinimal` | app/src/main/cpp/libxml2/c14n.c:602-673 | every document with the same meaning declares at each element at least what the canonical form declares there |
| `C14nTree.CanonicalDecides` | app/src/main/cpp/libxml2/c14n.c:602-673 | two documents have equal canonical forms if and only if they say the same |
| `C14nPrint.OutputDecides` | app/src/main/cpp/libxml2/c14n.c:1416-1512 | the bytes written for two documents are equal if and only if the documents say the same, unless a namespace URI has both kinds of quotes |
| `C14nPrint.OutputCollides` | app/src/main/cpp/libxml2/c14n.c:554-558 | two documents that differ in such a URI are written alike |
| `C14nPrint.TagReads` | app/src/main/cpp/libxml2/c14n.c:1451-1482 | a start tag is read back in one way: declarations, then attributes, then its end |
| `C14nPrint.PrintNode` | app/src/main/cpp/libxml2/c14n.c:1451-1499 | what is printed for the pieces one by one is the printed element |
| `C14nPrint.PrintedElement` | app/src/main/cpp/libxml2/c14n.c:1451-1499 | an element is its start tag with the declarations and attributes in this order, its children one after the other, and its end tag |
| `C14nPrint.PrintedText` | app/src/main/cpp/libxml2/c14n.c:1540-1561 | text is written escaped |
| `Quoting.WriteQuotedString` | app/src/main/cpp/libxml2/buf.c:1111-1153 | a string is quoted by the kind of quotes it has not; with both, quotes become references |
| `Quoting.QuotedIdentifies` | app/src/main/cpp/libxml2/buf.c:1111-1153 | a quoted string cannot be mistaken for another if and only if it has no apostrophe, or neither a quote nor the reference for one |
| `C14n.CompareByKey` | app/src/main/cpp/libxml2/c14n.c:882-918 | the comparison of attributes is the order of their keys, which `C14nOrder.CanonicalInOrder` spells out: without namespace first, by name, then by URI and name |
| `C14n.Canonicalizer.ProcessAttrsAxis` | app/src/main/cpp/libxml2/c14n.c:1165-1174 | all attributes of the element are printed, sorted by key, with escaped values |
| `C14n.Canonicalizer.InsertAttr` | app/src/main/cpp/libxml2/list.c:272-294 | insertion by the comparison of attributes keeps the list sorted and adds the one attribute |
| `C14n.NamesAddNothing` | app/src/main/cpp/libxml2/tree.c:6030-6070 | the look at the declaration that an ancestor's own name refers to finds nothing new in a parsed document |
| `C14nTree.CanonicalIsStable` | app/src/main/cpp/libxml2/c14n.c:602-673 | the canonical form is its own canonical form |
| `C14nNormalize.NormalizeString` | app/src/main/cpp/libxml2/c14n.c:2146-2234 | the loop writes the escaped string and a terminator, always inside its doubling buffer |
| `C14nNormalize.NormalizeInvertible` | app/src/main/cpp/libxml2/c14n.c:2124-2234 | in attribute and text mode expanding the references returns the input |
| `C14nNormalize.NormalizeClean` | app/src/main/cpp/libxml2/c14n.c:2124-2234 | no raw character that a mode escapes is left in its output |
| `Escapes.NormalizeSpelledOut` | app/src/main/cpp/libxml2/c14n.c:2160-2228 | the output is that of the characters one after the other, by the tables of section 2.3 of Canonical XML 1.0 for attributes and text, and only carriage returns in comments and instructions |
| `DictRun.Run` | app/src/main/cpp/libxml2/dict.c:829-956 | over any run of lookups of non-empty names on a dictionary and its sub-dictionary, equal names get equal pointers and different names different ones, every pointer still shows its name at the end, and pointers of the two agree exactly for equal names that the dictionary does not hold itself; a lookup is refused exactly for its length, or only when the name was not known and its dictionary is full, and what was answered once is answered again |
| `Dict.Dictionary.Lookup` | app/src/main/cpp/libxml2/dict.c:829-956 | a lookup answers with the pointer that the view of interned strings gives, adds at most the name asked for, and leaves every interned string its bytes; a non-empty name is refused if and only if it is longer than 0x3FFFFFFF or not shorter than the limit, or not in view while no pool has room and the pools together are past the limit |
| `Dict.Dictionary.Intern` | app/src/main/cpp/libxml2/dict.c:926-946 | a new name enters its bucket with the key of the current table size |
| `Dict.Dictionary.InternAndGrow` | app/src/main/cpp/libxml2/dict.c:926-952 | a new name is refused exactly when the pools are full; the table grows by six exactly when more than three entries were passed and it has at most 2730 buckets |
| `Dict.Dictionary.Grow` | app/src/main/cpp/libxml2/dict.c:631-754 | growing conserves the multiset of entries, every entry lands in the bucket of its key, and the keys are those of the new size |
| `Dict.Dictionary.MoveHeads` | app/src/main/cpp/libxml2/dict.c:674-710 | the inline heads move to the new table, with keys recomputed only when leaving size 128 |
| `Dict.Dictionary.MoveChains` | app/src/main/cpp/libxml2/dict.c:712-744 | the chained entries move to the new table |
| `Dict.Dictionary.AddString` | app/src/main/cpp/libxml2/dict.c:241-290 | the string is stored with a terminator in the first pool that has room or in a new one, no stored byte changes, and it is refused if and only if no pool has room and the sizes of the pools add up to more than the limit |
| `Dict.Dictionary.NotInBucket` | app/src/main/cpp/libxml2/dict.c:851-880 | a name that is not in its bucket is nowhere in the table |
| `Dict.Dictionary.SharedKey` | app/src/main/cpp/libxml2/dict.c:885-894 | the rule that reuses the key for the sub-dictionary gives the sub-dictionary's own key |
| `Dict.HeadsAndTails` | app/src/main/cpp/libxml2/dict.c:674-744 | a table is its inline heads together with its chains |
| `DictKeys.KeyOfName` | app/src/main/cpp/libxml2/dict.c:374-470 | both key functions depend only on the name's own bytes |
| `DictKeys.ComputeBigKey` | app/src/main/cpp/libxml2/dict.c:374-393 | the one-at-a-time hash loop over 32-bit words |
| `DictKeys.BigKeyExample` | app/src/main/cpp/libxml2/dict.c:374-393 | the hash of the string a with seed 0 is 0xCA2E9442, the value of the one-at-a-time hash |
| `DictKeys.FastKeyExamples` | app/src/main/cpp/libxml2/dict.c:443-468 | the fast key of a short and of a long name, term by term |
| `DictRun.ViewIsFaithful` | app/src/main/cpp/libxml2/dict.c:829-956 | of two interned strings the pointers are equal if and only if the strings are, and each pointer shows its string |
| `DictRun.AnsweredAgain` | app/src/main/cpp/libxml2/dict.c:829-850 | of two requests for one name on one dictionary the second is answered if the first was |
| `DictRun.AcrossIsFaithful` | app/src/main/cpp/libxml2/dict.c:882-924 | a dictionary shows the pointer of its sub-dictionary exactly for the names that only the latter holds |
| `Sax2.ParserCtxt.Parse` | app/src/main/cpp/libxml2/SAX2.c:2516-2632 | any run of start, end, characters, comment, PI, reference and entity-copy callbacks leaves in memory the document it describes, keeps the cache invariant, and never changes an interned string; a document that begins empty has at every element the children that `SaxChildren.Children` reads off the events alone |
| `Sax2.ParserCtxt.InMemory` | app/src/main/cpp/libxml2/SAX2.c:2516-2632 | after such a run the nodes below every element are, in the order of the events, one node for each comment, PI, reference and copied node said while it was innermost, one element for each start tag, and one text for each run of chunks between them, which holds the chunks joined |
| `SaxChildren.ToldStep` | app/src/main/cpp/libxml2/SAX2.c:2516-2632 | the description that is read off the events (for comments, PIs and references also lines 2484-2513 and 2662-2780) follows the document through every step |
| `SaxChildren.ChildrenSnoc` | app/src/main/cpp/libxml2/SAX2.c:2541-2557 | one thing more that is said joins the last text when both are text, and is a child of its own otherwise |
| `Sax2.ParserCtxt.Characters` | app/src/main/cpp/libxml2/SAX2.c:2516-2632 | a chunk joins the text node that is last, or becomes a new one, or is refused, exactly as the description of the document says |
| `Sax2.ParserCtxt.Append` | app/src/main/cpp/libxml2/SAX2.c:2566-2611 | the cached branch: copy before the first write to an inline or interned string, growth when needed, and the exact condition for refusing the chunk |
| `Sax2.ParserCtxt.TextConcat` | app/src/main/cpp/libxml2/tree.c:6969-6994 | concatenation that copies inline and interned text and reallocates private text |
| `Sax2.ParserCtxt.NewTextNode` | app/src/main/cpp/libxml2/SAX2.c:1843-1919 | a new text node holds the chunk in its inline area, in the dictionary or in a block of its own, with the exact condition for each |
| `Sax2.ParserCtxt.StartElement` | app/src/main/cpp/libxml2/SAX2.c:2327-2345 | a new element becomes the last child of the open one and the cache is reset |
| `Sax2.ParserCtxt.EndElement` | app/src/main/cpp/libxml2/SAX2.c:2443-2474 | the innermost element is closed and the cache is reset |
| `Sax2.ParserCtxt.CopyEntity` | app/src/main/cpp/libxml2/parser.c:7527-7632 | the nodes of an entity are copied, or moved with the storage that they have, to the end of the element, text merging into text, and the cache is switched off |
| `SaxDocument.StepKeepsWellFormed` | app/src/main/cpp/libxml2/SAX2.c:2516-2632 | no event leaves two adjacent text nodes, and open elements stay nested as last children |
| `SaxDocument.RunText` | app/src/main/cpp/libxml2/SAX2.c:2516-2632 | over any run the string value of every element grows by exactly what was said while it was open |
| `SaxDocument.ChunkLost` | app/src/main/cpp/libxml2/SAX2.c:2585-2589 | a chunk is lost if and only if it would take text that is being collected past 10,000,000 bytes without the huge option |
| `Catalog.Catalogs.LookupAll` | app/src/main/cpp/libxml2/catalog.c:2002-2079 | over any number of lookups without cycles the answers and the lists in memory are those of the description without counters, and all counters come back; in settled files each answer is as if it were the only lookup |
| `CatalogOrder.OrderCannotBeNoticed` | app/src/main/cpp/libxml2/catalog.c:1409-1477 | in settled files, where the loaders of every file agree on a preference that matters and every delegate that can be chosen is readable, what was loaded before changes no answer; missing roots and further catalogs do no harm |
| `CatalogOrder.ResolveRefines` | app/src/main/cpp/libxml2/catalog.c:1627-1843 | there, resolution with the lists in memory answers as resolution without memory, and keeps the lists in agreement with the preferences |
| `CatalogOrder.RunRefines` | app/src/main/cpp/libxml2/catalog.c:2002-2079 | the same over runs of requests |
| `CatalogOrder.DelegatesRefine` | app/src/main/cpp/libxml2/catalog.c:1695-1738 | leaving out delegates that were tried before, fifty URLs at most, changes no answer |
| `CatalogOrder.SameDecision` | app/src/main/cpp/libxml2/catalog.c:1645-1771 | a list decides the same however often it was loaded, except that one whose further catalogs are all missing gives up at once |
| `CatalogOrder.OwnPreference` | app/src/main/cpp/libxml2/catalog.c:1374-1387 | files are settled when each fixes the preference of its delegatePublic entries itself |
| `CatalogOrder.OnePreference` | app/src/main/cpp/libxml2/catalog.c:1374-1387 | files are settled when only one preference occurs |
| `CatalogOrder.ReadsAlike` | app/src/main/cpp/libxml2/catalog.c:1759-1762 | a file says the same to loaders of either preference if and only if none of its delegatePublic entries inherits one |
| `CatalogOrder.LoaderIsNoticed` | app/src/main/cpp/libxml2/catalog.c:1429-1453 | four readable files without a cycle and two requests: the second is answered differently after the first, because a file was loaded with the preference of another entry |
| `CatalogOrder.MissingIsNoticed` | app/src/main/cpp/libxml2/catalog.c:1454-1458 | a delegate whose file is missing ends the first lookup and is passed over by the second |
| `Catalog.Catalogs.ResolveEntries` | app/src/main/cpp/libxml2/catalog.c:1627-1843 | terminates on every catalog graph, lowers no counter, refuses above the limit, answers at once what the list decides alone, such as the URL of its first system entry for the identifier, and where no file leads back to itself equals the description, in the answer and in what is loaded |
| `Catalog.Catalogs.ResolveList` | app/src/main/cpp/libxml2/catalog.c:2002-2079 | terminates on every catalog graph and for all identifiers; a first root that is loaded and decides alone gives the URL of its entry; equals the description on the unwrapped identifiers where no file leads back to itself |
| `Catalog.Catalogs.TryEachDelegate` | app/src/main/cpp/libxml2/catalog.c:1695-1738 | the delegate loop with its list of URLs already tried; without cycles it gives the answer of the first delegate that has one, else a break |
| `Catalog.Catalogs.TryEachNext` | app/src/main/cpp/libxml2/catalog.c:1820-1839 | the loop over further catalogs; without cycles it gives the first answer, and the branch that leaves the counter raised is not taken |
| `Catalog.Catalogs.AskDelegate` | app/src/main/cpp/libxml2/catalog.c:1705-1731 | one turn of the delegate loop |
| `Catalog.Catalogs.Fetch` | app/src/main/cpp/libxml2/catalog.c:1409-1477 | an entry is attached to the one list of its URL, loaded at most once and with the preference of the entry, or marked broken; no counter changes |
| `Catalog.Catalogs.Load` | app/src/main/cpp/libxml2/catalog.c:1448-1474 | the entries of a file without a preference of their own take that of the loader, and the list joins the cache |
| `Catalog.Decide` | app/src/main/cpp/libxml2/catalog.c:1645-1771 | the passes over one list find what the list decides alone: the URL of the first system entry for the identifier; else the replacement of the longest matching rewriting prefix and the rest of the identifier; else system delegates; else the same for the public identifier; else further catalogs |
| `CatalogRules.LocalSpelledOut` | app/src/main/cpp/libxml2/catalog.c:1645-1839 | the description decides in this order for lists of any length, each case by the positions of the entries that match and that do not |
| `CatalogOrder.PlainSpelledOut` | app/src/main/cpp/libxml2/catalog.c:1645-1839 | in settled files the answer is the URL when a list decides alone, else that of the first delegate that has one, else a break, and without delegates that of the first further catalog that has one |
| `CatalogRules.RewriteIsLongest` | app/src/main/cpp/libxml2/catalog.c:1670-1678 | the rewriting rule used is the first of those with the longest prefix |
| `CatalogRules.RoomShrinks` | app/src/main/cpp/libxml2/catalog.c:1637-1647 | the room left by the counters never grows, and shrinks when one of them is raised |
| `CatalogUrn.NestedUrnShrinks` | app/src/main/cpp/libxml2/catalog.c:822-875 | an unwrapped identifier that is a URN again, before or after normalization, has fewer percent signs |
| `CatalogUrn.UnwrapFalls` | app/src/main/cpp/libxml2/catalog.c:2014-2059 | every unwrapping in the lookup lowers a rank, so the recursion ends |
| `CatalogUrn.UnWrapURN` | app/src/main/cpp/libxml2/catalog.c:822-875 | the loop over its buffer of 2000 characters computes the expansion, cut off where the buffer is almost full |
| `CatalogUrn.UnwrapUndoes` | app/src/main/cpp/libxml2/catalog.c:816-875 | unwrapping undoes the transcription of any public identifier into a URN (section 1.2 of RFC 3151), as long as the buffer holds it |
| `CatalogUrn.EffectiveSpelledOut` | app/src/main/cpp/libxml2/catalog.c:2002-2059 | which identifiers are looked up, in the cases of the code: a public URN is unwrapped and asked again; a system URN becomes the public identifier, or is dropped |
| `CatalogUrn.NormalizePublic` | app/src/main/cpp/libxml2/catalog.c:1033-1073 | nothing is returned exactly for non-empty identifiers in normal form, else the normal form |
| `CatalogUrn.NormalizedMeans` | app/src/main/cpp/libxml2/catalog.c:1033-1073 | the normal form has no blanks but single inner spaces, and the same other characters in the same order |
| `CatalogUrn.NormalizedIffNormal` | app/src/main/cpp/libxml2/catalog.c:1033-1073 | an identifier is its own normal form if and only if it is normal; normalization is idempotent |
| `Buf.XmlBuf.Run` | app/src/main/cpp/libxml2/buf.c:355-1015 | any sequence of operations under any changeable scheme acts on a plain byte string by append, prepend, drop-front and drop-back, as long as what is held and what one step asks for fit together; nothing is refused unless the scheme is Bounded at some time |
| `BufLaws.StepMoves` | app/src/main/cpp/libxml2/buf.c:355-1015 | what a step is on the byte string, by the positions of the bytes that stay, come and go |
| `BufLaws.FirstInFirstOut` | app/src/main/cpp/libxml2/buf.c:388-423 | bytes that are appended and taken off the front leave in the order in which they came |
| `BufLaws.DoublingStops` | app/src/main/cpp/libxml2/buf.c:768-778 | doubling stops at the first size that suffices |
| `Buf.XmlBuf.Shrink` | app/src/main/cpp/libxml2/buf.c:388-423 | dropping bytes at the front, by moving the content pointer or the bytes |
| `Buf.XmlBuf.GrowInternal` | app/src/main/cpp/libxml2/buf.c:437-496 | the contents stay, and a successful call leaves more than the requested number of bytes free |
| `Buf.XmlBuf.Resize` | app/src/main/cpp/libxml2/buf.c:745-853 | the exact new size per scheme; use is taken from the compat field; the branch that moves data back to the start is dead |
| `Buf.XmlBuf.Add` | app/src/main/cpp/libxml2/buf.c:868-913 | append, with the exact conditions for failure |
| `Buf.XmlBuf.AddHead` | app/src/main/cpp/libxml2/buf.c:928-994 | prepend, in the gap or by moving the contents, with the exact conditions for failure |
| `Buf.XmlBuf.Cat` | app/src/main/cpp/libxml2/buf.c:1007-1015 | append of a zero-terminated string |
| `Buf.XmlBuf.Erase` | app/src/main/cpp/libxml2/buf.c:646-657 | drop-back |
| `Buf.XmlBuf.Empty` | app/src/main/cpp/libxml2/buf.c:355-374 | the contents become empty |
| `Buf.XmlBuf.AddLen` | app/src/main/cpp/libxml2/buf.c:621-635 | bytes behind the contents join them; asking for every free byte fails half way and loses the terminator |
| `Buf.XmlBuf.SetScheme` | app/src/main/cpp/libxml2/buf.c:288-318 | the scheme changes unless it is IO already; switching to IO reports failure |
| `Buf.XmlBuf.CCat` | app/src/main/cpp/libxml2/buf.c:1027-1054 | the characters arrive unchanged if and only if there is at most one of them or no room has to be made after the first |
| `Buf.CharacterLost` | app/src/main/cpp/libxml2/buf.c:1027-1054 | two characters behind 4086 others in a hybrid buffer: one is overwritten |
| `Transcoding.FromUTF8` | app/src/main/cpp/libxml2/encoding.c:220-286 | UTF8Toascii (and UTF8Toisolat1, lines 393-464): the output is the longest convertible prefix, bounds are kept for any input, and the reason for stopping is exact |
| `Transcoding.FromLatin1` | app/src/main/cpp/libxml2/encoding.c:304-336 | the output is the UTF-8 form of the consumed bytes, no other byte of the buffer changes, and one more character would not fit; every outer turn makes progress |
| `Transcoding.Latin1RoundTrip` | app/src/main/cpp/libxml2/encoding.c:393-464 | UTF8Toisolat1 undoes isolat1ToUTF8 |
| `Transcoding.AtBoundary` | app/src/main/cpp/libxml2/encoding.c:240-262 | on a character boundary of valid UTF-8, cut anywhere, the reading loop sees the next character or a cut |
| `Transcoding.NextOfEncoded` | app/src/main/cpp/libxml2/encoding.c:240-262 | decoding the UTF-8 form of a character gives the character |
| `Spelling.EncodeIsUtf8` | app/src/main/cpp/libxml2/encoding.c:240-268 | the UTF-8 form of a character is the one string of the length for its value whose bytes carry that value (section 3 of RFC 3629) |
| `Utf16.FromUTF8ToUnits` | app/src/main/cpp/libxml2/encoding.c:570-663 | for valid UTF-8 cut anywhere and any capacity the output is the UTF-16LE form of the consumed characters, and as many as fit |
| `Utf16.FromUnitsToUTF8` | app/src/main/cpp/libxml2/encoding.c:485-553 | for valid UTF-16LE cut anywhere and any capacity the output is the UTF-8 form of the consumed characters; stops only at the end, at a cut, or with fewer than six bytes free |
| `Spelling.UnitsAreUtf16` | app/src/main/cpp/libxml2/encoding.c:618-655 | the UTF-16LE form of a character is the one unit or surrogate pair that stands for it, low byte first (section 2.1 of RFC 2781) |
| `Utf16Streams.RoundTrip` | app/src/main/cpp/libxml2/encoding.c:485-663 | UTF-8 to UTF-16LE and back gives the same bytes for every sequence of scalar values (sections 2.1 and 2.2 of RFC 2781) |
| `Utf16Streams.StreamToUnits` | app/src/main/cpp/libxml2/encoding.c:593-662 | pieces of any sizes into buffers of any sizes, resumed on the remainder, give the one-shot result |
| `Utf16Streams.StreamFromUnits` | app/src/main/cpp/libxml2/encoding.c:501-552 | the same from UTF-16LE |
| `CharEncOutput.CharEncOutput` | app/src/main/cpp/libxml2/encoding.c:2405-2617 | for valid UTF-8 the input keeps an end of the text and the output gets the encoded form of everything before it, unencodable characters as decimal references; nothing is left when the text fits a chunk, and at least about half a chunk is written otherwise; terminates for any input |
| `CharEncOutput.Turn` | app/src/main/cpp/libxml2/encoding.c:2424-2615 | one retry keeps written output plus remaining text constant and lowers the number of bytes above ASCII; the branch that takes back half a reference is dead |
| `CharEncOutput.Convert` | app/src/main/cpp/libxml2/encoding.c:2463-2488 | one conversion, with the room for four times the chunk, never stops for lack of space, and uses up at most two bytes for every byte written |
| `CharEncOutput.Retry` | app/src/main/cpp/libxml2/encoding.c:2558-2597 | the character that stopped the converter is read back, and its reference stands for it |
| `CharEncOutput.GetEncoded` | app/src/main/cpp/libxml2/xmlstring.c:708-764 | xmlGetUTF8Char reads any encoded character and its length |
| `CharEncOutput.ReferenceShape` | app/src/main/cpp/libxml2/encoding.c:2586-2596 | a reference is at most ten bytes and ASCII |
| `Escapes.SubstituteSpelledOut` | app/src/main/cpp/libxml2/encoding.c:2586-2596 | the encoded form of a text is that of its characters one after the other: the byte of a character below 128 or 256, else a decimal reference |
| `Spelling.NumeralStandsFor` | app/src/main/cpp/libxml2/encoding.c:2586 | the digits of a reference are those of the number by place value, without leading zeros |
| `CharEncMeaning.SameMeaning` | app/src/main/cpp/libxml2/encoding.c:2406-2615 | expanding the references of the ASCII output gives what expanding those of the text gives, whatever ampersands and references the text has |
| `ShellDu.Du` | app/src/main/cpp/libxml2/debugXML.c:2683-2751 | the walk visits exactly the nodes on the paths down from the start, each once, at the depth of its path and in document order, entity references as leaves; it prints elements at their depth, and terminates |
| `DocOrder.VisitsAllPaths` | app/src/main/cpp/libxml2/debugXML.c:2710-2746 | recursive preorder visits exactly the paths of the tree, each at its depth; a path comes before its continuations and before those that branch off to the right |
| `ShellDu.LineSpelledOut` | app/src/main/cpp/libxml2/debugXML.c:2681-2709 | a line is a slash for the document, and for an element two blanks for each level and its qualified name; other nodes have none |
| `ShellDu.PrintNode` | app/src/main/cpp/libxml2/debugXML.c:2681-2709 | the loop over the indentation writes that line |
| `ShellDu.GoUp` | app/src/main/cpp/libxml2/debugXML.c:2724-2746 | going up ends at the next node in document order, or at the end of the subtree |
| `DocTrees.VisitedOnce` | app/src/main/cpp/libxml2/debugXML.c:2683-2751 | no node of a linked tree occurs twice in document order |
| `DocTrees.RootIsOnce` | app/src/main/cpp/libxml2/debugXML.c:2716-2741 | the start node does not occur below itself, so comparing with it finds the end |
| `Entities.EncodeEntities` | app/src/main/cpp/libxml2/entities.c:556-740 | the loop writes the escaped string and a terminator, always inside its doubling buffer |
| `Entities.EscapingIsInvertible` | app/src/main/cpp/libxml2/entities.c:556-740 | expanding the references of the output returns the text if and only if all its characters are characters of XML (section 2.2 of XML 1.0) |
| `Escapes.EscapedSpelledOut` | app/src/main/cpp/libxml2/entities.c:576-735 | the output for characters of XML is that of the characters one after the other: the three named references, &#13;, the character itself when ASCII, else a hexadecimal reference |
| `Escapes.ControlDropped` | app/src/main/cpp/libxml2/entities.c:724-732 | other control characters are dropped |
| `Escapes.BadByte` | app/src/main/cpp/libxml2/entities.c:701-712 | a byte that begins no character of XML becomes a number of its own, and in a document what follows is copied |
| `Spelling.NamedSpelledOut` | app/src/main/cpp/libxml2/entities.c:30-59 | expanding replaces the predefined references (section 4.6 of XML 1.0) |
| `Spelling.NumericSpelledOut` | app/src/main/cpp/libxml2/entities.c:713-723 | expanding replaces decimal and hexadecimal references by the UTF-8 form of their character |
| `Entities.AsciiOutput` | app/src/main/cpp/libxml2/entities.c:586-733 | without a document the output is pure ASCII |
| `Entities.ReferencesFit` | app/src/main/cpp/libxml2/entities.c:661-730 | every reference fits the scratch buffer of eleven bytes |
| `References.ExpandDecimal` | app/src/main/cpp/libxml2/entities.c:723-730 | a decimal reference expands to the UTF-8 form of its character (section 4.1 of XML 1.0) |
| `References.ExpandHex` | app/src/main/cpp/libxml2/entities.c:713-721 | so does a hexadecimal one |
| `TranslationBuffer.Translation.Grow` | app/src/main/cpp/libxml2/c14n.c:2124-2134 | the translation buffer doubles and keeps its contents |
| `AreaModel.CountNetwork` | app/src/main/cpp/libarea/area.c:694-701 | the loop for guard devices adds up the whole network: building counts times building totals |
| `AreaModel.MachineInfo.SetAddress` | app/src/main/cpp/libarea/area.c:413-433 | the address fields for one network entry, written octet by octet |
| `AreaModel.MachineInfo.NumberInBuild` | app/src/main/cpp/libarea/area.c:752-804 | the loop over the cells of the building of the device |
| `AreaNumbering.PlaceIsRank` | app/src/main/cpp/libarea/area.c:759-800 | the formulas for rooms, cell doors and house doors number the devices of a cell without gap or overlap |
| `AreaNumbering.CellRoundTrip` | app/src/main/cpp/libarea/area.c:759-800 | the place of a device in its cell determines the device |
| `AreaNumbering.AcceptedIsLocated` | app/src/main/cpp/libarea/area.c:592-644 | an accepted local device stands in the building and the cell that the searches found |
| `AreaNumbering.TallyBeforeHit` | app/src/main/cpp/libarea/area.c:740-746 | before the building of the device is reached the loop adds the whole block of each building of the network |
| `C14n.Canonicalizer.ProcessNodeList` | app/src/main/cpp/libxml2/c14n.c:1715-1728 | a list of siblings is written out in canonical form and leaves the stack as it was |
| `C14n.Canonicalizer.CollectAxis` | app/src/main/cpp/libxml2/c14n.c:624-642 | the walk over the declarations of the element and its ancestors pushes exactly the axis and lists exactly what is new |
| `C14n.VisibleNsStack.Add` | app/src/main/cpp/libxml2/c14n.c:314-358 | one entry on top; the table doubles when full and keeps its entries |
| `Dict.Dictionary.Find` | app/src/main/cpp/libxml2/dict.c:848-924 | the duplicate check finds a non-empty name if and only if the view has it, and otherwise counts the entries in front of the place to insert |
| `Dict.Dictionary.SearchChain` | app/src/main/cpp/libxml2/dict.c:853-880 | the walk along a chain finds the entry with the key, the length and the bytes, if there is one |
| `Dict.Dictionary.constructor` | app/src/main/cpp/libxml2/dict.c:538-598 | a dictionary starts empty with 128 buckets and inherits the seed of its sub-dictionary |
| `Sax2.ParserCtxt.Unshare` | app/src/main/cpp/libxml2/SAX2.c:2574-2580 | inline and interned strings are copied before they are written to |
| `Sax2.ParserCtxt.FindStorage` | app/src/main/cpp/libxml2/SAX2.c:1864-1897 | the choice between inline area, dictionary and private block by length, options and the two bytes that follow |
| `Sax2.ParserCtxt.Remeasure` | app/src/main/cpp/libxml2/SAX2.c:2612-2619 | the branch with the cache off concatenates, measures, and switches the cache on again |
| `Sax2.ParserCtxt.LinkText` | app/src/main/cpp/libxml2/SAX2.c:2549-2557 | the new text node becomes the last child, and its memory is apart from that of all others |
| `Sax2.ParserCtxt.AddOther` | app/src/main/cpp/libxml2/SAX2.c:2484-2513 | comments, PIs and references become the last child and leave the cache alone; what this means for the document is `Sax2.ParserCtxt.InMemory` |
| `SaxDocument.StepText` | app/src/main/cpp/libxml2/SAX2.c:2516-2632 | one event adds what it says to every open element and nothing to any other |
| `Catalog.Catalogs.AskFile` | app/src/main/cpp/libxml2/catalog.c:1713-1723 | a file asked through an entry that refers to it, loaded on the way; without cycles the answer and what is loaded are those of the description |
| `Catalog.Catalogs.AddRoot` | app/src/main/cpp/libxml2/catalog.c:3634-3636 | a root catalog with the preference in force, not loaded yet, changes no list and no counter |
| `Catalog.Catalogs.AddDepth` | app/src/main/cpp/libxml2/catalog.c:1637-1643 | raising or lowering one counter changes no other |
| `CatalogUrn.ExpandPercent` | app/src/main/cpp/libxml2/catalog.c:832-872 | expanding adds no percent sign, and a lone colon costs one because it stands for %3A |
| `CatalogUrn.NormalizedNeighbours` | app/src/main/cpp/libxml2/catalog.c:1055-1070 | three characters that are neighbours in the normal form were neighbours before |
| `Buf.XmlBuf.PutChars` | app/src/main/cpp/libxml2/buf.c:1044-1051 | which characters of xmlBufCCat survive: those since the last request for room |
| `Buf.XmlBuf.Perform` | app/src/main/cpp/libxml2/buf.c:355-1015 | one operation is one step on the plain byte string, and it is refused exactly when a bounded buffer would be taken to ten million bytes |
| `Utf16.ToUnitsNext` | app/src/main/cpp/libxml2/encoding.c:593-659 | the next step of the conversion, or the reason to stop |
| `Utf16.FromUnitsNext` | app/src/main/cpp/libxml2/encoding.c:501-548 | the next unit or surrogate pair of a stream is the next character, or a cut |
| `Utf16.UnitsValue` | app/src/main/cpp/libxml2/encoding.c:512-530 | the values of the units of a character recombine to it (section 2.2 of RFC 2781) |
| `Utf16Streams.ToUnitsResumed` | app/src/main/cpp/libxml2/encoding.c:593-662 | a conversion that goes on where an earlier one stopped |
| `Transcoding.ConvertedNext` | app/src/main/cpp/libxml2/encoding.c:240-283 | the next step of the conversion, or the reason to stop |
| `Transcoding.TailOfTrails` | app/src/main/cpp/libxml2/encoding.c:263-268 | reading trailing bytes gives back the bits they were made from |
| `CharEncOutput.Finish` | app/src/main/cpp/libxml2/encoding.c:2558-2615 | when the loop ends the input holds an end of the text and the output what comes before |
| `CharEncOutput.GetMatchesNext` | app/src/main/cpp/libxml2/xmlstring.c:708-764 | the converters and xmlGetUTF8Char read the same characters |
| `CharEncMeaning.SameNumeral` | app/src/main/cpp/libxml2/encoding.c:2586-2596 | a run of digits of a reference is the same with and without the substitution |
| `DocTrees.Disjoint` | app/src/main/cpp/libxml2/debugXML.c:2710-2746 | the subtrees of two children share no node |
| `DocTrees.SameTree` | app/src/main/cpp/libxml2/debugXML.c:2710-2746 | the links of a node determine the tree below it |
| `ShellDu.OnTheWay` | app/src/main/cpp/libxml2/debugXML.c:2710-2746 | every node on the way is linked to its parent and its next sibling as the tree says |
| `Entities.GoodPrefix` | app/src/main/cpp/libxml2/entities.c:576-735 | characters of XML come back on expansion, whatever follows them |
| `Entities.BadStep` | app/src/main/cpp/libxml2/entities.c:700-734 | the first character outside XML is lost: control characters are dropped, U+FFFE and U+FFFF fall apart into bytes |
| `Entities.CompleteStep` | app/src/main/cpp/libxml2/entities.c:655-720 | on a string that does not end inside a character no step moves past the end, and what is left is such a string |
| `Catalog.FreshIsCalm` | app/src/main/cpp/libxml2/catalog.c:1637-1643 | counters that were never touched allow every lookup over acyclic files |
| `Catalog.Catalogs.AskNextEntry` | app/src/main/cpp/libxml2/catalog.c:1823-1836 | one turn of the loop over further catalogs, the check of the counter included |
| `Buf.XmlBuf.MakeRoom` | app/src/main/cpp/libxml2/buf.c:888-903 | room for the bytes to add, unless the buffer is bounded and they do not fit |
| `Sax2.ParserCtxt.Receive` | app/src/main/cpp/libxml2/SAX2.c:2516-2632 | every callback moves the document as its event says, which `SaxChildren.ToldStep` spells out, and keeps all invariants |

## Left out

- Sax2.ParserCtxt.Parse: text nodes are bounded to 0x1FFFFFFF bytes, because with the huge option the C int nodemem overflows past that.
- Buf.XmlBuf.Run: what is held and what one operation asks for are bounded together to 0x1FFFFF00 bytes, because past that doubling does not fit the compatibility fields; there is no bound on the run.
- CharEncOutput.CharEncOutput: the buffers are bounded in the same way, and neither limited by the Bounded scheme nor in error.
- DictRun.Run: empty names are excluded, because the fast key reads the first byte of the name past its length.
- Catalog.Catalogs.ResolveList: the answer is specified where no file leads back to itself. Termination has no such condition.
- CatalogOrder.OrderCannotBeNoticed: the condition is sufficient; whether two loaders of a file can in fact be told apart depends on every other entry that may hide the difference, so the other direction is given by the two failing inputs and, for a single file, by `CatalogOrder.ReadsAlike`.
- C14nPrint.OutputDecides: the condition on URIs is sufficient for documents; for a single URI it is exact (`Quoting.QuotedIdentifies`).
- AreaAddresses.DistinctAddresses: the bound is necessary where the numbers have no gap; with gaps the repeated addresses may belong to numbers that nobody carries.
- Entities.EncodeEntities: strings that end inside a character are excluded, because the code reads past their end.
- AreaModel.MachineInfo.InitMachineInfo: sums are not truncated to the C int, which they reach only beyond 2^31 devices; NULL lists and `getObjectMachineInfo` are not modelled.
- C14n.Canonicalize: inclusive form of a whole document; exclusive form, partial node-sets, comments, processing instructions and xml:base are not modelled, and the check for relative URIs is a flag of the element. No element has two attributes with the same namespace and name, as the parser ensures.
- C14n.SearchNs: the nearest declaration; the look at an ancestor's own name is `C14n.SearchWithNames`, which is the same where each name refers to the nearest declaration of its prefix, as in a parsed document.
- Transcoding.FromUTF8: one method for the two converters, which differ in their limit and in how they treat a bad trailing byte.
- ShellDu.Du: the nodes are records in a sequence and links are positions in it; the walk changes none of them. Printing is a list of lines.
- Utf16.FromUTF8ToUnits: a little-endian machine; the UTF-16BE converters are not modelled.
- CharEncOutput.Convert: the initialisation call, which writes nothing for these encoders, and iconv and ICU encoders are not modelled.
- Buf.XmlBuf.SetScheme: immutable buffers, detached and wrapped buffers are not modelled.
- Sax2.ParserCtxt.CopyEntity: the branch for the first reference, which renames the entity's own text nodes to keep them apart, is not modelled, nor are CDATA sections, the limit on nesting, line numbers and validation.
- Catalog.Catalogs.ParseFile: catalog files are given as lists of entries, each with the prefer attribute nearest around it; the XML parse, SGML catalogs and URI resolution are not modelled.
- Dict.Dictionary.Grow: prefixed lookups, ownership queries, freeing and the source of the seed are not modelled.
- Failing memory allocation is not modelled anywhere, and neither are mutexes and error messages.
- Handler tables, alias tables and the interactive shell add only easy members.
