# Proved models of five programs

This project models five independent pieces of a collection of programs and proves what
they are for. Each piece has its own modules; `Basics.dfy`, `Multisets.dfy` and
`CLibrary.dfy` (the contract of `qsort`) hold what they share.

* **Sticks** (`Sticks.dfy`): a pruned backtracking search for the least length L such
  that a pile of sticks splits into groups of total length exactly L. The search is a
  class with the program's global arrays; its three prunings are proved to lose nothing.
* **Greedy programs** (`Packets.dfy`, `SwapSort.dfy`, `BoardMerge.dfy`): the fewest
  parcels for square products, the fewest adjacent swaps that sort, and the cheapest way
  to join boards. Each greedy result is proved to be the optimum over all alternatives.
* **TinyXML** (`Xml*.dfy`): the text level with its escaper and entity decoder, the
  recursive-descent parser, the printer, the document tree with its linked lists and
  rings, the cursor of the parser, and line-end normalisation. The encoding is one byte
  a character, the C locale applies, and white space is condensed in text.
  `XmlText`, `XmlParser` and `XmlPrinter` say what the parser and printer compute, as functions of the text from
  the current pointer on; `XmlReader` and `XmlWriter` are the loops over an index and
  the visitor of linked trees with its buffer, proved to compute the same. `XmlTextProofs` and
  `XmlRoundTrip` prove that reading undoes writing. `XmlAttributes` and `XmlTree` are
  the linked structures on the heap, and `XmlEditing` has the edits of a node at any depth
  of a tree. `XmlContent` says what trees hold and what cloning keeps of it, `XmlClonePrint`
  when a clone prints alike, and `XmlGrow` links the tree that parsing leaves.
  `XmlReparse` goes from a linked tree over its text to a linked tree again, and `XmlLaws`
  says exactly which texts, attributes, comments and tags are read back as they were.
  `XmlReferences` says what every reference is read as, `XmlReading` what text between them
  is, `XmlEscapes` what every text is escaped to, `XmlLayout` what a printed document looks
  like line by line, and `XmlRefusals` what becomes of text that no printer writes.
* **libcurl's resolvers** (`ResolverThread.dfy`, `ResolverAres.dfy`): the ownership
  protocol of the threaded resolver as a transition system over all interleavings of the
  two parties' steps, and the gathering of address lists over c-ares callbacks as a class
  with a linked list that is spliced in place.
* **Two Base64 codecs** (`Base64*.dfy`): a tolerant one and libcurl's strict one, each
  against one definition of the encoding, and against each other.

## What the code does otherwise than it says

* `poj/POJ3253/kelin.cpp`: `cmp` reads 32-bit words of 64-bit entries, and the low word
  of the sentinel is negative. `BoardMerge.MinCost` is about the order by value that the
  loop relies on; `BoardMerge.MinCostAsWritten` proves what the program does as written.
* `tinyxml.cpp`: the escaper passes hexadecimal references through, so a value that holds
  `&#x` is never read back as it was; `XmlTextProofs.EscapeLaw` states exactly when it is.
* `tinyxml.cpp`: `TiXmlAttribute::Next` takes an attribute without name and value for the
  sentinel, so printing and cloning stop there. Cloning also passes every value, attribute
  name and attribute value on as a C string, so what stands behind a NUL, which the parser
  reads out of `&#0;`, is lost. `XmlContent.CloneIsEqual` states exactly when a clone is
  equal to its original, and `XmlClonePrint.ClonePrints` when it prints the same text.
* `POJ1804.cpp`: `compare` subtracts, so two numbers whose difference is no int are put in
  the wrong order; `SwapSort.CompareOrders` states exactly when.
* `base64.c`: the comment on the encoder says that an empty encoding is returned as NULL;
  the code returns a buffer that holds an empty string, and the model follows the code.
* `asyn-thread.c`: after giving the mutex back, the owner reads the thread handle out of
  data that the thread may already have freed; `ResolverThread.DetachIsLate` says exactly
  when, and `ResolverThread.UsesLiveData` that this is the only such access.

## Model

| member | source | states |
|---|---|---|
| `Sticks.Search.Solve` | 代码2/extra_test_3/extra_test_3/extra.cpp:46-68 | The printed number is the least length for which the sticks split into groups each adding up to exactly it |
| `Sticks.Search.Dfs` | 代码2/extra_test_3/extra_test_3/extra.cpp:13-42 | With `start == 0` whenever `len == 0`: true exactly when some unused sticks at or behind `start` complete the current group and all the rest split into groups of `InitLen`; on failure every mark is as before, on success all sticks are marked; recursion ends by `n - num` |
| `Sticks.Search.Read` | 代码2/extra_test_3/extra_test_3/extra.cpp:48-55 | Reads n sticks and their total, and puts them in order, the longest first |
| `Sticks.Search.ReadSticks` | 代码2/extra_test_3/extra_test_3/extra.cpp:48-54 | The loop stores the sticks as they come and adds them up |
| `Sticks.TooShort` | 代码2/extra_test_3/extra_test_3/extra.cpp:56 | Below the longest stick no length works, so the search may start there |
| `Sticks.PastHalf` | 代码2/extra_test_3/extra_test_3/extra.cpp:56-67 | From half of the total up to the total no length works, so the search may stop there |
| `Sticks.SplitDivides` | 代码2/extra_test_3/extra_test_3/extra.cpp:59 | A length that works divides the total |
| `Sticks.GroupOf` | 代码2/extra_test_3/extra_test_3/extra.cpp:30-36 | In a split, any stick's group can be the one that is taken out first |
| `Sticks.ChosenShort` | 代码2/extra_test_3/extra_test_3/extra.cpp:23-29 | Some completion uses this stick exactly if the recursive call with the longer group succeeds |
| `Sticks.ChosenExact` | 代码2/extra_test_3/extra_test_3/extra.cpp:30-36 | A stick that fills the group completes it alone, exactly if what is left splits |
| `Sticks.ChosenLong` | 代码2/extra_test_3/extra_test_3/extra.cpp:22-37 | A stick that would overfill the group is in no completion |
| `Sticks.PassSkipped` | 代码2/extra_test_3/extra_test_3/extra.cpp:20-21 | Skipping a marked stick, or one as long as the stick that failed last, loses no completion |
| `Sticks.PassFailed` | 代码2/extra_test_3/extra_test_3/extra.cpp:28-37 | After a stick has failed, every completion there is avoids it and every stick of its length still ahead |
| `Sticks.FirstMustFit` | 代码2/extra_test_3/extra_test_3/extra.cpp:38-39 | With an empty group the first unused stick is in some completion if there is any, so giving up when it fails loses nothing |
| `Sticks.FreshStart` | 代码2/extra_test_3/extra_test_3/extra.cpp:58-59 | With no stick marked the search answers whether the whole pile splits, and only a divisor of the total can work |
| `Packets.Parcels` | 代码2/Packets/Packets/test.cpp:11-97 | The printed count is the fewest parcels over all packings that obey the capacities |
| `Packets.EveryPackingIsEnough` | 代码2/Packets/Packets/test.cpp:11-95 | Every packing of an order uses at least as many parcels as the 6x6, 5x5 and 4x4 products plus a number that meets three linear bounds |
| `Packets.EnoughCanBePacked` | 代码2/Packets/Packets/test.cpp:11-95 | Any number that meets the three bounds is reached by an actual packing |
| `Packets.LostIsSubadditive` | 代码2/Packets/Packets/test.cpp:28-66 | Packing the 3x3 products four to a parcel costs the fewest 2x2 places: the capacity beside them is convex |
| `Packets.FivesKeepNeed` | 代码2/Packets/Packets/test.cpp:12-15 | Filling the 5x5 parcels with 1x1 products changes nothing about which counts suffice |
| `Packets.FoursKeepNeed` | 代码2/Packets/Packets/test.cpp:16-27 | Nor does filling the 4x4 parcels with 2x2 and then 1x1 products |
| `Packets.ThreesNeed` | 代码2/Packets/Packets/test.cpp:28-71 | A count suffices exactly if it covers the 3x3 parcels and what remains suffices for the rest |
| `Packets.TwosNeed` | 代码2/Packets/Packets/test.cpp:72-87 | Likewise for the 2x2 products |
| `Packets.OnesNeed` | 代码2/Packets/Packets/test.cpp:88-95 | Likewise for the 1x1 products |
| `Packets.GreedyIsFewest` | 代码2/Packets/Packets/test.cpp:11-95 | The greedy count is the minimum, for every order of non-negative numbers |
| `Packets.FillFives` | 代码2/Packets/Packets/test.cpp:12-15 | Takes the 1x1 products that fit beside the 5x5 ones |
| `Packets.FillFours` | 代码2/Packets/Packets/test.cpp:16-27 | Takes the 2x2 products that fit beside the 4x4 ones, then the 1x1 products for the places left |
| `Packets.ShipThrees` | 代码2/Packets/Packets/test.cpp:28-71 | Counts the 3x3 parcels and takes the 2x2 and 1x1 products that fit in the last of them |
| `Packets.ShipTwos` | 代码2/Packets/Packets/test.cpp:72-87 | Counts the 2x2 parcels and takes the 1x1 products that fit in the last of them |
| `Packets.ShipOnes` | 代码2/Packets/Packets/test.cpp:88-95 | Counts the 1x1 parcels |
| `SwapSort.Scenario` | poj/POJ1804/POJ1804.cpp:46-60 | For numbers whose differences are ints: the printed number is the number of inversions of the input, duplicates included, and no shorter series of adjacent swaps sorts it |
| `SwapSort.CompareOrders` | poj/POJ1804/POJ1804.cpp:6-11 | `compare` tells which of two numbers is greater exactly if their difference is an int; 2147483647 and -1 come out in the wrong order |
| `SwapSort.LogSwapTime` | poj/POJ1804/POJ1804.cpp:24-37 | Leaves the array equal to the sorted copy and returns the inversions of the original, the fewest adjacent swaps |
| `SwapSort.QSwap` | poj/POJ1804/POJ1804.cpp:13-22 | Moves an entry forward in place and returns how far, or does nothing when it is not behind its destination |
| `SwapSort.SwapChangesByOne` | poj/POJ1804/POJ1804.cpp:18-19 | An adjacent swap mends one inversion, makes one, or exchanges equals |
| `SwapSort.SortedMeansNoInversions` | poj/POJ1804/POJ1804.cpp:26-36 | A sequence is sorted exactly if it has no inversions |
| `SwapSort.SortingTakesInversions` | poj/POJ1804/POJ1804.cpp:24-37 | Any series of adjacent swaps that sorts has at least as many swaps as there are inversions |
| `SwapSort.RotatingSwaps` | poj/POJ1804/POJ1804.cpp:17-21 | Moving an entry forward is that many adjacent swaps |
| `SwapSort.RotatingMends` | poj/POJ1804/POJ1804.cpp:32-34 | When the moved entry is smaller than all it passes, each of those swaps mends an inversion |
| `SwapSort.InversionsBound` | poj/POJ1804/POJ1804.cpp:26 | The count stays within the number of pairs |
| `BoardMerge.MinCost` | poj/POJ3253/kelin.cpp:18-39 | With the comparison by value that `cmp` is meant to give: `mincost` is, to its 32 bits, the least total cost over all binary merge orders, after exactly n-1 merges with `p` always inside the array |
| `BoardMerge.MinCostAsWritten` | poj/POJ3253/kelin.cpp:8-39 | With `cmp` as it is written, which compares low words: the program stops before any merge (for one board after one merge with the sentinel), and what it prints is the least cost only for two or more boards that all have length 0 |
| `BoardMerge.LeastAsWritten` | poj/POJ3253/kelin.cpp:8-11 | Boards have the least cost that the low-word comparison makes the program print exactly if there are at least two and none has any length |
| `BoardMerge.GreedyIsLeast` | poj/POJ3253/kelin.cpp:27-37 | Merging the two shortest each time costs the least over all merge orders |
| `BoardMerge.ShortestFirst` | poj/POJ3253/kelin.cpp:34-36 | Any merge order can be turned into one that merges two given shortest boards first, at no greater cost |
| `BoardMerge.Spread` | poj/POJ3253/kelin.cpp:34-36 | Making one of two boards shorter and the other longer by as much, from at least equal lengths outwards, lets some plan cost no more |
| `BoardMerge.CostAtLeastWeight` | poj/POJ3253/kelin.cpp:34-36 | A plan with joins costs at least the total length |
| `BoardMerge.Load` | poj/POJ3253/kelin.cpp:18-24 | The array holds the n boards and then n sentinels |
| `CLibrary.Qsort` | poj/POJ3253/kelin.cpp:29 | The C library's contract: the first n entries come back permuted and in the order of the key |
| `XmlText.SkipWhiteSpace` | 代码2/string_Tiny_test/xml/tinyxmlparser.cpp:314-362 | Null at the end of the text, else the first place that is not white space |
| `XmlText.ReadName` | 代码2/string_Tiny_test/xml/tinyxmlparser.cpp:401-436 | Null, or a place strictly later, past the name |
| `XmlText.GetEntity` | 代码2/string_Tiny_test/xml/tinyxmlparser.cpp:438-531 | Null, or a place strictly later, for entity references of any length |
| `XmlText.GetChar` | 代码2/string_Tiny_test/xml/tinyxml.h:327-369 | Null, or a place strictly later |
| `XmlText.Keep` | 代码2/string_Tiny_test/xml/tinyxmlparser.cpp:582-595 | The loop that keeps white space ends at the end tag, the end of the text, or null, never moving back |
| `XmlText.Condense` | 代码2/string_Tiny_test/xml/tinyxmlparser.cpp:596-633 | The loop that condenses white space likewise |
| `XmlTextProofs.CharDecodes` | 代码2/string_Tiny_test/xml/tinyxml.cpp:55-131 | Reading one escaped character, entity expanded, returns the character: `GetEntity` inverts named and hexadecimal references |
| `XmlTextProofs.EncodedIsSafe` | 代码2/string_Tiny_test/xml/tinyxml.cpp:52-133 | Escaped output without passed-through references holds no quote, no angle bracket and no control character |
| `XmlTextProofs.KeepDecodes` | 代码2/string_Tiny_test/xml/tinyxmlparser.cpp:582-595 | Reading an escaped value up to a quote or angle bracket, white space kept, returns the value |
| `XmlTextProofs.CondenseDecodes` | 代码2/string_Tiny_test/xml/tinyxmlparser.cpp:596-633 | Reading an escaped text with white space condensed returns the text if it has only single inner spaces |
| `XmlReading.RawIsKept` | 代码2/string_Tiny_test/xml/tinyxmlparser.cpp:582-595 | Text without ampersands is read as it stands up to the end tag when white space is kept |
| `XmlReading.WordsRead` | 代码2/string_Tiny_test/xml/tinyxmlparser.cpp:596-633 | Words with any white space around and between them are read with one space between each two and none around them |
| `XmlTextProofs.ValueRoundTrip` | 代码2/string_Tiny_test/xml/tinyxml.cpp:1210-1233 | A value without `&#x`, escaped and quoted, is read back exactly, and reading stops just past the quote |
| `XmlTextProofs.EscapeLaw` | 代码2/string_Tiny_test/xml/tinyxml.cpp:61-83 | The escape law holds for a value exactly if no `&#x` occurs in it: passed-through references never come back as they were |
| `XmlReferences.DecimalReference` | 代码2/string_Tiny_test/xml/tinyxmlparser.cpp:479-498 | `&#` and anything up to a semicolon is the character whose number, taken modulo 256, the decimal digits behind the last `#` stand for, however many there are; with any other character among them the reference fails |
| `XmlReferences.HexadecimalReference` | 代码2/string_Tiny_test/xml/tinyxmlparser.cpp:451-477 | Likewise `&#x` with hexadecimal digits of either case, behind the last `x` |
| `XmlReferences.OpenReference` | 代码2/string_Tiny_test/xml/tinyxmlparser.cpp:451-486 | A reference by number without a semicolon fails |
| `XmlReferences.NamedReference` | 代码2/string_Tiny_test/xml/tinyxmlparser.cpp:514-524 | The five names stand for their characters |
| `XmlReferences.UnknownReference` | 代码2/string_Tiny_test/xml/tinyxmlparser.cpp:526-530 | An ampersand that begins neither a number nor a name is dropped, and reading goes on behind it |
| `XmlEscapes.NamedIsEscaped` | 代码2/string_Tiny_test/xml/tinyxml.cpp:83-107 | A character with a name is written as the reference of that name |
| `XmlEscapes.UnnamedIsEscaped` | 代码2/string_Tiny_test/xml/tinyxml.cpp:108-131 | Any other control character is written as a reference with the two upper-case digits of its number, any other character as it is |
| `XmlEscapes.EscapesJoin` | 代码2/string_Tiny_test/xml/tinyxml.cpp:52-133 | Texts are escaped one after the other, as long as no `&#x` begins in the first |
| `XmlEscapes.ReferencePasses` | 代码2/string_Tiny_test/xml/tinyxml.cpp:60-82 | From `&#x` up to the next semicolon nothing is escaped, whatever it is |
| `XmlEscapes.OpenReferencePasses` | 代码2/string_Tiny_test/xml/tinyxml.cpp:60-82 | Without a semicolon all but the last character is passed through |
| `XmlParser.ParseComment` | 代码2/string_Tiny_test/xml/tinyxmlparser.cpp:1337-1389 | Returns null or a place strictly later |
| `XmlParser.ParseUnknown` | 代码2/string_Tiny_test/xml/tinyxmlparser.cpp:1275-1307 | Returns null or a place strictly later |
| `XmlParser.ParseCData` | 代码2/string_Tiny_test/xml/tinyxmlparser.cpp:1508-1535 | Returns null or a place strictly later |
| `XmlParser.ParseText` | 代码2/string_Tiny_test/xml/tinyxmlparser.cpp:1536-1545 | Returns null or a place strictly later, from text that begins with neither white space nor `<` |
| `XmlParser.ParseAttribute` | 代码2/string_Tiny_test/xml/tinyxmlparser.cpp:1392-1463 | Returns null or a place strictly later |
| `XmlParser.DeclarationTail` | 代码2/string_Tiny_test/xml/tinyxmlparser.cpp:1594-1628 | The loop of a declaration ends: null or a place strictly later |
| `XmlParser.ParseDeclaration` | 代码2/string_Tiny_test/xml/tinyxmlparser.cpp:1572-1629 | Returns null or a place strictly later |
| `XmlParser.ParseElement` | 代码2/string_Tiny_test/xml/tinyxmlparser.cpp:1043-1176 | Returns null or a place strictly later: the mutual recursion of elements, values and nodes ends |
| `XmlParser.ParseTag` | 代码2/string_Tiny_test/xml/tinyxmlparser.cpp:1078-1176 | The loop over the attributes ends, and the tag is passed |
| `XmlParser.ParseEndTag` | 代码2/string_Tiny_test/xml/tinyxmlparser.cpp:1110-1137 | Null, or past the end tag |
| `XmlParser.ReadValue` | 代码2/string_Tiny_test/xml/tinyxmlparser.cpp:1179-1247 | Null, or no earlier than it began |
| `XmlParser.ReadChildren` | 代码2/string_Tiny_test/xml/tinyxmlparser.cpp:1187-1246 | The loop over an element's children ends, since every child is strictly later than the one before |
| `XmlParser.ParseNode` | 代码2/string_Tiny_test/xml/tinyxmlparser.cpp:818-899 | The node that `Identify` made parses to null or strictly later |
| `XmlReader.SkipWhiteSpaceAt` | 代码2/string_Tiny_test/xml/tinyxmlparser.cpp:314-362 | The loop over an index does what the function of that name says |
| `XmlReader.StringEqualAt` | 代码2/string_Tiny_test/xml/tinyxmlparser.cpp:534-572 | The comparing loop decides whether the text begins with the tag |
| `XmlReader.StringEqualNoCaseAt` | 代码2/string_Tiny_test/xml/tinyxmlparser.cpp:549-559 | Likewise, letters compared without case |
| `XmlReader.ReadNameAt` | 代码2/string_Tiny_test/xml/tinyxmlparser.cpp:401-436 | The longest name at the index, and the index past it |
| `XmlReader.DigitsBack` | 代码2/string_Tiny_test/xml/tinyxmlparser.cpp:464-499 | The loop that reads a reference's digits backwards, in 32-bit arithmetic |
| `XmlReader.GetEntityAt` | 代码2/string_Tiny_test/xml/tinyxmlparser.cpp:438-531 | Expands an entity reference or passes over an unknown one, strictly later |
| `XmlReader.GetCharAt` | 代码2/string_Tiny_test/xml/tinyxml.h:327-369 | One character, entities expanded, strictly later |
| `XmlReader.KeepAt` | 代码2/string_Tiny_test/xml/tinyxmlparser.cpp:585-594 | The loop collects exactly the text kept |
| `XmlReader.CondenseAt` | 代码2/string_Tiny_test/xml/tinyxmlparser.cpp:598-632 | The loop collects exactly the condensed text |
| `XmlReader.ReadTextAt` | 代码2/string_Tiny_test/xml/tinyxmlparser.cpp:574-637 | Text up to the end tag, and past it unless it ends the buffer |
| `XmlReader.CopyToAt` | 代码2/string_Tiny_test/xml/tinyxmlparser.cpp:1378-1384 | Copies up to an end tag without expanding entities |
| `XmlReader.ParseCommentAt` | 代码2/string_Tiny_test/xml/tinyxmlparser.cpp:1337-1389 | Node, error and position of a comment, strictly later |
| `XmlReader.ParseUnknownAt` | 代码2/string_Tiny_test/xml/tinyxmlparser.cpp:1275-1307 | Node, error and position of an unknown tag, strictly later |
| `XmlReader.ParseCDataAt` | 代码2/string_Tiny_test/xml/tinyxmlparser.cpp:1508-1535 | Node, error and position of a CDATA section, strictly later |
| `XmlReader.ParseTextAt` | 代码2/string_Tiny_test/xml/tinyxmlparser.cpp:1536-1545 | Plain text up to the next `<`, on which the position stays |
| `XmlReader.UnquotedAt` | 代码2/string_Tiny_test/xml/tinyxmlparser.cpp:1443-1460 | An unquoted attribute value, and whether a stray quote turned up |
| `XmlReader.ParseAttributeAt` | 代码2/string_Tiny_test/xml/tinyxmlparser.cpp:1392-1463 | Name, value, error and position of an attribute, strictly later |
| `XmlReader.ParseDeclarationAt` | 代码2/string_Tiny_test/xml/tinyxmlparser.cpp:1572-1629 | Version, encoding and standalone of a declaration in any order |
| `XmlReader.IdentifyAt` | 代码2/string_Tiny_test/xml/tinyxmlparser.cpp:818-899 | The kind of node that begins at a position |
| `XmlReader.ParseElementAt` | 代码2/string_Tiny_test/xml/tinyxmlparser.cpp:1043-1176 | An element with its attributes and children, its error and position, strictly later |
| `XmlReader.ParseTagAt` | 代码2/string_Tiny_test/xml/tinyxmlparser.cpp:1078-1176 | The attribute loop, the empty tag, the value and the end tag |
| `XmlReader.ParseEndTagAt` | 代码2/string_Tiny_test/xml/tinyxmlparser.cpp:1110-1137 | The end tag, white space allowed before its `>` |
| `XmlReader.ReadValueAt` | 代码2/string_Tiny_test/xml/tinyxmlparser.cpp:1179-1247 | The children of an element in order, blank texts left out |
| `XmlReader.ParseDocumentAt` | 代码2/string_Tiny_test/xml/tinyxmlparser.cpp:704-796 | The nodes and the first error of a document, for every buffer |
| `XmlGrow.ParseInto` | 代码2/string_Tiny_test/xml/tinyxmlparser.cpp:704-796 | Parsing leaves a linked tree, whole at every depth, that holds the nodes read, and the first error, for every buffer |
| `XmlGrow.Grow` | 代码2/string_Tiny_test/xml/tinyxmlparser.cpp:1043-1247 | A parsed element has its attributes in its ring and its children in its list, in the order read, at every depth |
| `XmlGrow.GrowChildren` | 代码2/string_Tiny_test/xml/tinyxmlparser.cpp:1226-1231 | The children are linked one after the other |
| `XmlGrow.GrowAttributes` | 代码2/string_Tiny_test/xml/tinyxmlparser.cpp:1146-1173 | The attributes are added to the ring one after the other |
| `XmlGrow.ContentIsNode` | 代码2/string_Tiny_test/xml/tinyxmlparser.cpp:1043-1247 | The printer visits the linked tree as the node that was parsed |
| `XmlReader.FindAttribute` | 代码2/string_Tiny_test/xml/tinyxmlparser.cpp:1159-1170 | Whether an attribute of that name has been read |
| `XmlReader.BlankValue` | 代码2/string_Tiny_test/xml/tinyxmlparser.cpp:1631-1637 | Whether a text is all white space |
| `XmlRefusals.UnquotedReads` | 代码2/string_Tiny_test/xml/tinyxmlparser.cpp:1441-1461 | A value without quotes is the text up to white space, `/` or `>`, not decoded; a quote in it makes it fail |
| `XmlRefusals.UnquotedAttribute` | 代码2/string_Tiny_test/xml/tinyxmlparser.cpp:1392-1463 | An attribute with such a value is read, or refused with its error |
| `XmlRefusals.NoEquals` | 代码2/string_Tiny_test/xml/tinyxmlparser.cpp:1410-1415 | A name without an equals sign is refused with its error |
| `XmlRefusals.DuplicateRefused` | 代码2/string_Tiny_test/xml/tinyxmlparser.cpp:1158-1170 | After any attributes a second one of one of their names is refused with its error, and the tag keeps those before it |
| `XmlRefusals.EndTag` | 代码2/string_Tiny_test/xml/tinyxmlparser.cpp:1117-1137 | An end tag, white space before its bracket or not, closes the element exactly if it has its name |
| `XmlRefusals.WrongEndTagRefused` | 代码2/string_Tiny_test/xml/tinyxmlparser.cpp:1043-1176 | A printed element with another element's end tag is refused with its error, with all children read |
| `XmlRefusals.SlashRefused` | 代码2/string_Tiny_test/xml/tinyxmlparser.cpp:1092-1102 | A start tag with a slash that no `>` follows is refused with its error |
| `XmlRefusals.OpenTagRefused` | 代码2/string_Tiny_test/xml/tinyxmlparser.cpp:1083-1091 | A start tag that ends within its attributes is refused with its error |
| `XmlRefusals.NeverClosed` | 代码2/string_Tiny_test/xml/tinyxmlparser.cpp:1103-1115 | An element that is never closed is refused, with one error if the text ends behind the start tag and another if white space follows |
| `XmlRefusals.NeverEnded` | 代码2/string_Tiny_test/xml/tinyxmlparser.cpp:1275-1535 | A comment or unknown tag that is never closed takes all the rest without an error; a CDATA section too, but returns null |
| `XmlRefusals.NoMarkup` | 代码2/string_Tiny_test/xml/tinyxmlparser.cpp:711-792 | A document in which no tag begins behind the white space is empty, with its error |
| `XmlRefusals.DeclarationIsCut` | 代码2/string_Tiny_test/xml/tinyxmlparser.cpp:1594-1628 | Whatever is read, the parts of a declaration hold no NUL: they are set as C strings |
| `XmlRefusals.FirstErrorStays` | 代码2/string_Tiny_test/xml/tinyxmlparser.cpp:798-802 | A document keeps its first error, whatever text is read afterwards |
| `XmlWriter.EncodeString` | 代码2/string_Tiny_test/xml/tinyxml.cpp:52-133 | The escaping loop writes exactly the escaped text |
| `XmlWriter.PassThrough` | 代码2/string_Tiny_test/xml/tinyxml.cpp:77-83 | A hexadecimal reference passes through up to its semicolon, or to the last character |
| `XmlWriter.FindQuote` | 代码2/string_Tiny_test/xml/tinyxml.cpp:1217 | Whether a value holds a double quote |
| `XmlWriter.Printer.DoIndent` | 代码2/string_Tiny_test/xml/tinyxml.h:1785-1788 | Appends the indent once for each level |
| `XmlWriter.Printer.Attribute` | 代码2/string_Tiny_test/xml/tinyxml.cpp:1210-1233 | Appends an attribute, escaped, between the quotes its value calls for |
| `XmlWriter.Printer.Attributes` | 代码2/string_Tiny_test/xml/tinyxml.cpp:1772-1776 | Walking an element's ring with `First` and `Next`, appends the attributes that are visited |
| `XmlWriter.Printer.VisitEnter` | 代码2/string_Tiny_test/xml/tinyxml.cpp:1766-1800 | Appends the start tag of a linked element, goes one level deeper, and notes whether its only child is plain text |
| `XmlWriter.Printer.VisitExit` | 代码2/string_Tiny_test/xml/tinyxml.cpp:1803-1826 | Appends the end tag of a linked element and restores depth and note |
| `XmlWriter.Printer.VisitText` | 代码2/string_Tiny_test/xml/tinyxml.cpp:1829-1854 | Appends a text, on the element's own line if it is the only child |
| `XmlWriter.Printer.Accept` | 代码2/string_Tiny_test/xml/tinyxml.cpp:875-886 | A visit of a linked tree appends exactly the printed node, everything in it included, and leaves depth and flag as they were |
| `XmlWriter.Printer.AcceptChildren` | 代码2/string_Tiny_test/xml/tinyxml.cpp:877-884 | The children of an element are appended in order |
| `XmlWriter.Printer.AcceptAll` | 代码2/string_Tiny_test/xml/tinyxml.cpp:877-884 | The loop from the first child on along `next` appends all of them in order |
| `XmlWriter.Printer.AcceptDocument` | 代码2/string_Tiny_test/xml/tinyxml.cpp:1156-1167 | A visit of a linked document appends exactly the printed document |
| `XmlWriter.ElementWritten` | 代码2/string_Tiny_test/xml/tinyxml.cpp:1766-1826 | Start tag, children and end tag together are the element as a whole is printed |
| `XmlLayout.IndentIsCopies` | 代码2/string_Tiny_test/xml/tinyxml.h:1785-1788 | The indent is the indent string once for each level of depth |
| `XmlLayout.AttributeIsText` | 代码2/string_Tiny_test/xml/tinyxml.cpp:1210-1233 | An attribute is in double quotes, or in single ones if its value holds a double quote |
| `XmlLayout.DocumentIsLaid` | 代码2/string_Tiny_test/xml/tinyxml.cpp:1766-1885 | A printed document is its lines: each node that is not the sole, plain text of its element stands behind as many indents as it is deep and ends in a line break, and so does the end tag of an element with other children |
| `XmlLayout.StreamIsJoined` | 代码2/string_Tiny_test/xml/tinyxml.h:1771-1773 | In stream mode nothing is written between them |
| `XmlRoundTrip.RoundTrip` | 代码2/string_Tiny_test/xml/tinyxml.cpp:1756-1885 | Parsing what the printer prints for a normal-form document, pretty or as a stream, rebuilds its nodes without an error |
| `XmlReparse.PrintAndParse` | 代码2/string_Tiny_test/xml/tinyxmlparser.cpp:704-796 | From one linked tree to the other: printing a linked document in normal form, pretty or as a stream, and parsing the text gives a linked document that is visited alike, without an error; it holds the same exactly if the first holds nothing that is not visited |
| `XmlReparse.BareIsVisited` | 代码2/string_Tiny_test/xml/tinyxml.cpp:1756-1885 | What is visited of a tree determines it exactly if every node holds only what its kind has |
| `XmlLaws.TextLaw` | 代码2/string_Tiny_test/xml/tinyxmlparser.cpp:574-637 | A plain text is read back exactly if it holds no hexadecimal reference, its blanks are single, and none is at either end |
| `XmlLaws.CondenseLaw` | 代码2/string_Tiny_test/xml/tinyxmlparser.cpp:596-633 | Condensing white space, an escaped text is read back exactly if it holds no hexadecimal reference and its blanks are single and not at the end |
| `XmlLaws.AttributeLaw` | 代码2/string_Tiny_test/xml/tinyxmlparser.cpp:1392-1463 | An attribute is read back exactly if it has a proper name and no hexadecimal reference in its value |
| `XmlLaws.CommentLaw` | 代码2/string_Tiny_test/xml/tinyxmlparser.cpp:1337-1391 | A comment is read back exactly if it holds neither a NUL nor "-->" |
| `XmlLaws.CDataLaw` | 代码2/string_Tiny_test/xml/tinyxmlparser.cpp:1497-1546 | A CDATA section is read back exactly if it holds neither a NUL nor "]]>" |
| `XmlLaws.UnknownLaw` | 代码2/string_Tiny_test/xml/tinyxmlparser.cpp:1275-1307 | An unknown tag is read back exactly if it holds neither a NUL nor ">" |
| `XmlRoundTrip.NodeReads` | 代码2/string_Tiny_test/xml/tinyxmlparser.cpp:1179-1247 | A printed node of any kind is recognised and parsed back to itself, whatever follows it |
| `XmlRoundTrip.ElementOpens` | 代码2/string_Tiny_test/xml/tinyxmlparser.cpp:1043-1174 | A printed start tag is read back as its name and attributes in order |
| `XmlRoundTrip.AttributeReads` | 代码2/string_Tiny_test/xml/tinyxmlparser.cpp:1392-1463 | A printed attribute is read back |
| `XmlRoundTrip.DeclarationReads` | 代码2/string_Tiny_test/xml/tinyxmlparser.cpp:1572-1629 | A printed declaration is read back |
| `XmlRoundTrip.CommentReads` | 代码2/string_Tiny_test/xml/tinyxmlparser.cpp:1337-1389 | A printed comment without `-->` is read back |
| `XmlRoundTrip.CDataReads` | 代码2/string_Tiny_test/xml/tinyxmlparser.cpp:1508-1535 | A printed CDATA section without `]]>` is read back |
| `XmlRoundTrip.UnknownReads` | 代码2/string_Tiny_test/xml/tinyxmlparser.cpp:1275-1307 | A printed unknown tag without `>` is read back |
| `XmlRoundTrip.ChildrenRead` | 代码2/string_Tiny_test/xml/tinyxmlparser.cpp:1179-1247 | Printed children are read back one after the other, whatever white space stands between them |
| `XmlRoundTrip.NodesRead` | 代码2/string_Tiny_test/xml/tinyxmlparser.cpp:704-796 | The nodes of a printed document are read back one after the other |
| `XmlAttributes.AttributeSet.constructor` | 代码2/string_Tiny_test/xml/tinyxml.cpp:1500-1504 | The sentinel alone in its ring: no attributes |
| `XmlAttributes.AttributeSet.Add` | 代码2/string_Tiny_test/xml/tinyxml.cpp:1514-1527 | Links a node in front of the sentinel: it becomes the last attribute, the ring still walks both ways |
| `XmlAttributes.AttributeSet.Remove` | 代码2/string_Tiny_test/xml/tinyxml.cpp:1529-1545 | Takes a node out and clears its links, the others keeping their order; nothing happens if it is not in the ring |
| `XmlAttributes.AttributeSet.Find` | 代码2/string_Tiny_test/xml/tinyxml.cpp:1572-1580 | The first attribute whose name is the same C string, or null |
| `XmlAttributes.AttributeSet.FindOrCreate` | 代码2/string_Tiny_test/xml/tinyxml.cpp:1583-1592 | The attribute of that name, appended without a value if there was none, its name cut at a NUL |
| `XmlAttributes.AttributeSet.SetAttribute` | 代码2/string_Tiny_test/xml/tinyxml.cpp:780-786 | Sets the value in place, or appends; both strings are cut at their first NUL; names stay different |
| `XmlAttributes.PutSets` | 代码2/string_Tiny_test/xml/tinyxml.cpp:780-786 | After setting an attribute its name has that value and every other name the value it had; what was there keeps its name and place |
| `XmlAttributes.AttributeSet.First` | 代码2/string_Tiny_test/xml/tinyxml.h:912 | The first attribute, null for an empty ring |
| `XmlAttributes.AttributeSet.Next` | 代码2/string_Tiny_test/xml/tinyxml.cpp:1170-1177 | The next attribute, but null at one without name and value, taken for the sentinel |
| `XmlAttributes.AttributeSet.CopyTo` | 代码2/string_Tiny_test/xml/tinyxml.cpp:858-866 | Sets in the target, in turn, the attributes that `First` and `Next` visit, names and values cut at their first NUL |
| `XmlAttributes.PutKeepsUnique` | 代码2/string_Tiny_test/xml/tinyxml.cpp:780-786 | Setting attributes keeps names different |
| `XmlAttributes.PutAllKeeps` | 代码2/string_Tiny_test/xml/tinyxml.cpp:853-866 | Whatever is set, names come out different and neither names nor values hold a NUL |
| `XmlAttributes.VisitsAll` | 代码2/string_Tiny_test/xml/tinyxml.cpp:1170-1177 | Every attribute is visited exactly if none but the first has neither name nor value |
| `XmlAttributes.PutAllAppends` | 代码2/string_Tiny_test/xml/tinyxml.cpp:860-866 | Setting attributes of different names without NUL keeps them and their order |
| `XmlAttributes.SetAttributes` | 代码2/string_Tiny_test/xml/tinyxml.cpp:860-866 | Setting attributes in an empty set keeps them exactly if names are different and nothing holds a NUL |
| `XmlAttributes.CopiedAttributes` | 代码2/string_Tiny_test/xml/tinyxml.cpp:858-866 | The copy has all attributes exactly if names are different, no name or value holds a NUL, and none but the first has neither name nor value |
| `XmlTree.XmlNode.LinkEndChild` | 代码2/string_Tiny_test/xml/tinyxml.cpp:186-211 | Appends a node to a node that is no part of a larger tree; a document is refused; both trees stay whole |
| `XmlEditing.LinkEndChild` | 代码2/string_Tiny_test/xml/tinyxml.cpp:186-211 | At any depth of a tree, appends a node that is not in it; a document is refused; the whole tree around the node stays whole, and nothing else in it changes |
| `XmlEditing.InsertEndChild` | 代码2/string_Tiny_test/xml/tinyxml.cpp:214-227 | At any depth of a tree, appends a fresh clone; the whole tree around the node stays whole, and nothing else in it changes |
| `XmlEditing.InsertBeforeChild` | 代码2/string_Tiny_test/xml/tinyxml.cpp:230-260 | At any depth of a tree, inserts a fresh clone in front of a child; no change for a node that is no child, or for a document; the whole tree around the node stays whole, and nothing else in it changes |
| `XmlEditing.InsertAfterChild` | 代码2/string_Tiny_test/xml/tinyxml.cpp:263-293 | At any depth of a tree, inserts a fresh clone behind a child; no change for a node that is no child, or for a document; the whole tree around the node stays whole, and nothing else in it changes |
| `XmlEditing.ReplaceChild` | 代码2/string_Tiny_test/xml/tinyxml.cpp:296-332 | At any depth of a tree, puts a fresh clone in a child's place; no change for a node that is no child, or for a document; the whole tree around the node stays whole, and nothing else in it changes |
| `XmlEditing.RemoveChild` | 代码2/string_Tiny_test/xml/tinyxml.cpp:335-359 | At any depth of a tree, deletes a child; false and no change for a node that is no child; the whole tree around the node stays whole, and nothing else in it changes |
| `XmlEditing.PathTo` | 代码2/string_Tiny_test/xml/tinyxml.cpp:186-359 | Every node that the contents of a tree have is reached by a path, along which the edits apply |
| `XmlEditing.PathDown` | 代码2/string_Tiny_test/xml/tinyxml.cpp:186-359 | A path goes on to any child of the node it leads to |
| `XmlEditing.PathHolds` | 代码2/string_Tiny_test/xml/tinyxml.cpp:186-359 | What a node at the end of a path holds is what the tree holds there |
| `XmlContent.GraftKeeps` | 代码2/string_Tiny_test/xml/tinyxml.cpp:186-359 | After an edit the edited subtree is in its place, and what is neither in it nor above it is as it was |
| `XmlTree.XmlNode.Clone` | 代码2/string_Tiny_test/xml/tinyxml.cpp:889-897 | A fresh tree disjoint from the original that holds the cloned content at every depth |
| `XmlTree.XmlNode.CopyAttributes` | 代码2/string_Tiny_test/xml/tinyxml.cpp:853-866 | The clone's attributes are the visited ones, in order |
| `XmlTree.XmlNode.CloneChildren` | 代码2/string_Tiny_test/xml/tinyxml.cpp:868-872 | The clone's children are clones of the children, in order |
| `XmlContent.CloneIsEqual` | 代码2/string_Tiny_test/xml/tinyxml.cpp:853-897 | For every tree, the clone is equal to the original at every depth exactly if no value, attribute name or attribute value holds a NUL, attribute names are different, no attribute but an element's first has neither name nor value, and only elements have attributes and only elements and documents children |
| `XmlContent.CloneLosesNul` | 代码2/string_Tiny_test/xml/tinyxml.cpp:161-166 | A text that the parser reads with a NUL in it, and its clone, which ends before the NUL |
| `XmlContent.CloneHasUniqueNames` | 代码2/string_Tiny_test/xml/tinyxml.cpp:853-897 | The attributes of every node of a clone have different names without NUL, whatever the original is like |
| `XmlContent.GraftKeepsUniqueNames` | 代码2/string_Tiny_test/xml/tinyxml.cpp:186-359 | Edits keep attribute names different at every node |
| `XmlClonePrint.ClonePrints` | 代码2/string_Tiny_test/xml/tinyxml.cpp:1756-1885 | For every tree, style and depth, printing the clone gives the text that printing the original gives exactly if no plain text holds a NUL and no element's visited attributes hold a NUL or a name twice |
| `XmlClonePrint.EncodeCut` | 代码2/string_Tiny_test/xml/tinyxml.cpp:52-133 | Escaping a text that is cut at its first NUL never gives the text that escaping all of it gives, hexadecimal references that go on past the cut included |
| `XmlClonePrint.AttributesCut` | 代码2/string_Tiny_test/xml/tinyxml.cpp:1768-1772 | The attributes of a clone are printed alike exactly if names are different and nothing holds a NUL |
| `XmlTree.TreeIsProper` | 代码2/string_Tiny_test/xml/tinyxml.cpp:186-211 | In a linked tree no document is below another node |
| `XmlTree.NextRelinked` | 代码2/string_Tiny_test/xml/tinyxml.cpp:230-359 | A splice of the `next` chain needs only two changed links |
| `XmlTree.PrevRelinked` | 代码2/string_Tiny_test/xml/tinyxml.cpp:230-359 | A splice of the `prev` chain needs only two changed links |
| `XmlTree.XmlNode.ChangeBefore` | 代码2/string_Tiny_test/xml/tinyxml.cpp:247-258 | The link changes of an insertion in front of a child, ends of the list included |
| `XmlTree.XmlNode.ChangeAfter` | 代码2/string_Tiny_test/xml/tinyxml.cpp:280-291 | The link changes of an insertion behind a child |
| `XmlTree.XmlNode.ChangeReplaced` | 代码2/string_Tiny_test/xml/tinyxml.cpp:316-330 | The link changes of a replacement |
| `XmlTree.XmlNode.ChangeRemoved` | 代码2/string_Tiny_test/xml/tinyxml.cpp:347-355 | The link changes of a removal |
| `XmlTree.XmlNode.Relisted` | 代码2/string_Tiny_test/xml/tinyxml.cpp:186-359 | After the link changes of any of these edits the children walk both ways again, each once and under this parent |
| `XmlCursor.ParsingData.Stamp` | 代码2/string_Tiny_test/xml/tinyxmlparser.cpp:196-311 | The loop moves row, column and stamp on to the first position at or after `now`, or not at all past a NUL or for a tab size below 1 |
| `XmlCursor.StampsCompose` | 代码2/string_Tiny_test/xml/tinyxmlparser.cpp:196-311 | Stamping at a and then at b equals stamping at b alone, exactly unless there is a NUL from a up to b and none from the cursor up to a |
| `XmlCursor.NulStops` | 代码2/string_Tiny_test/xml/tinyxmlparser.cpp:210-224 | A position is out of reach of a stamp exactly if a NUL stands before it |
| `XmlCursor.StampsArePathIndependent` | 代码2/string_Tiny_test/xml/tinyxmlparser.cpp:196-311 | For text without NUL it always does, even with a inside a CR LF pair or past a tab stop |
| `XmlCursor.CountsLinesAndColumns` | 代码2/string_Tiny_test/xml/tinyxmlparser.cpp:226-262 | In text with normalised line ends and no tabs the row is the number of line feeds before the position and the column the length of the line so far |
| `XmlCursor.RowsAndColumns` | 代码2/string_Tiny_test/xml/tinyxmlparser.cpp:210-262 | Stamped from the beginning the row is the number of line ends before the position, CR, LF, CR LF and LF CR each counting once, and the column that of the last line with each tab moved on to the next stop |
| `XmlCursor.OneStop` | 代码2/string_Tiny_test/xml/tinyxmlparser.cpp:253-259 | The column behind a tab is the only multiple of the tab size above the column and at most a tab size further |
| `XmlCursor.SpansOne` | 代码2/string_Tiny_test/xml/tinyxmlparser.cpp:253-302 | Only one column is that of a line |
| `XmlCursor.HasLines` | 代码2/string_Tiny_test/xml/tinyxmlparser.cpp:224-251 | Every text without NUL is made of such lines |
| `XmlNewlines.NormalizeInPlace` | 代码2/string_Tiny_test/xml/tinyxml.cpp:1052-1075 | The text before the first NUL becomes its line-end normalisation |
| `XmlNewlines.CopyHeads` | 代码2/string_Tiny_test/xml/tinyxml.cpp:1057-1073 | The write head never passes the read head, and the loop writes exactly the normalised text |
| `XmlNewlines.NormalizedHasNoCR` | 代码2/string_Tiny_test/xml/tinyxml.cpp:1062-1068 | No CR is left |
| `XmlNewlines.NormalizeIdempotent` | 代码2/string_Tiny_test/xml/tinyxml.cpp:1052-1075 | Normalising twice is normalising once |
| `XmlNewlines.NormalizeLines` | 代码2/string_Tiny_test/xml/tinyxml.cpp:1062-1071 | A line, a line end of any kind, and more text become the line, LF, and the normalised rest |
| `Base64Helper.Encode` | 代码/SMailer_test/MUtils/Base64Helper.cpp:36-76 | The loops write exactly the Base64 encoding |
| `Base64Helper.Decode` | 代码/SMailer_test/MUtils/Base64Helper.cpp:78-136 | The loops return exactly the bytes of the groups of symbols found, until the text ends or padding stands where a third or fourth symbol should |
| `Base64Helper.Next` | 代码/SMailer_test/MUtils/Base64Helper.cpp:87-101 | The loop for a first or second symbol: the next symbol, or none |
| `Base64Helper.NextOrPad` | 代码/SMailer_test/MUtils/Base64Helper.cpp:106-129 | The loop for a third or fourth symbol: the next symbol, or padding, or none |
| `Base64Helper.TableIsValue` | 代码/SMailer_test/MUtils/Base64Helper.cpp:24-34 | The decode table inverts the alphabet on ASCII |
| `Base64Helper.RoundTrip` | 代码/SMailer_test/MUtils/Base64Helper.cpp:36-136 | Decoding inverts encoding for every byte string |
| `Base64Helper.NoiseIsIgnored` | 代码/SMailer_test/MUtils/Base64Helper.cpp:78-136 | Decoding is unchanged when every character outside the alphabet and `=` is removed |
| `Base64Helper.AgreesWithStrict` | 代码/SMailer_test/MUtils/Base64Helper.cpp:78-136 | Every text the strict decoder accepts decodes to the same bytes |
| `Base64Helper.PaddingIsOptional` | 代码/SMailer_test/MUtils/Base64Helper.cpp:106-134 | Symbols without their padding decode like the padded text; a single symbol too many is lost |
| `Base64Helper.PaddingEnds` | 代码/SMailer_test/MUtils/Base64Helper.cpp:87-134 | Padding behind two or three symbols of a group ends the text, whatever follows; elsewhere it is passed over |
| `Base64.SymbolAt` | 代码/SMailer_test/MUtils/Base64Helper.cpp:21-22 | The symbols of the standard and the URL-safe alphabet |
| `Base64.QuadOfNumber` | 代码/curl-7.38.0/curl-7.38.0/lib/base64.c:227-252 | The four symbols of three bytes are the base-64 digits of their 24-bit number |
| `Base64.GroupOfNumber` | 代码/curl-7.38.0/curl-7.38.0/lib/base64.c:48-87 | Four symbols decode to the bytes of that number, less one for each padding character |
| `Base64.EncodedDecodes` | 代码/curl-7.38.0/curl-7.38.0/lib/base64.c:103-256 | Strict decoding inverts encoding for every non-empty byte string |
| `Base64.DecodedEncodes` | 代码/curl-7.38.0/curl-7.38.0/lib/base64.c:48-173 | Encoding inverts strict decoding exactly on the texts whose surplus bits are zero |
| `Base64.BytesLength` | 代码/curl-7.38.0/curl-7.38.0/lib/base64.c:139-143 | A well-formed text decodes to three bytes for each group less one for each padding character |
| `Base64Curl.Encode` | 代码/curl-7.38.0/curl-7.38.0/lib/base64.c:175-265 | The buffer holds the encoding of the input (up to its first NUL if the size is 0) and a NUL, 4*ceil(n/3) characters, within the size computed for it |
| `Base64Curl.Fill` | 代码/curl-7.38.0/curl-7.38.0/lib/base64.c:215-256 | The loop fills the buffer three bytes at a time and never writes past it |
| `Base64Curl.BufferFits` | 代码/curl-7.38.0/curl-7.38.0/lib/base64.c:197 | The buffer has room for the encoding and its NUL, with nothing to spare exactly when one byte is left over |
| `Base64Curl.WriteGroup` | 代码/curl-7.38.0/curl-7.38.0/lib/base64.c:227-253 | Writes the four characters of up to three bytes |
| `Base64Curl.Decode` | 代码/curl-7.38.0/curl-7.38.0/lib/base64.c:103-173 | Accepts exactly whole groups of four symbols of which the last may end in one or two `=`, and returns their bytes, as many as `rawlen` |
| `Base64Curl.Check` | 代码/curl-7.38.0/curl-7.38.0/lib/base64.c:118-137 | The checks before decoding: length, and padding only at the end |
| `Base64Curl.DecodeQuantum` | 代码/curl-7.38.0/curl-7.38.0/lib/base64.c:48-87 | Writes the bytes of one group and returns how many, 0 for a character that is neither symbol nor padding |
| `Base64Curl.DecodeGroups` | 代码/curl-7.38.0/curl-7.38.0/lib/base64.c:145-166 | The loop fills exactly the decoded size |
| `Base64Curl.Lookup` | 代码/curl-7.38.0/curl-7.38.0/lib/base64.c:61-71 | The search through the table finds a symbol's number |
| `Base64Curl.UrlTextAccepted` | 代码/curl-7.38.0/curl-7.38.0/lib/base64.c:45-46 | The decoder accepts the URL-safe encoding of some bytes, and gives them back, exactly if no group of six bits in them is 62 or 63 |
| `Base64Curl.SameEncoding` | 代码/curl-7.38.0/curl-7.38.0/lib/base64.c:45-46 | The two alphabets encode alike exactly then |
| `ResolverThread.ReleasedAtMostOnce` | 代码/curl-7.38.0/curl-7.38.0/lib/asyn-thread.c:188-373 | In every interleaving nothing is released twice: shared data, thread handle, and the list is not both handed over and freed |
| `ResolverThread.FreedByTheLater` | 代码/curl-7.38.0/curl-7.38.0/lib/asyn-thread.c:286-373 | The shared data is freed by the party that found `done` already set |
| `ResolverThread.ReleasedExactlyOnce` | 代码/curl-7.38.0/curl-7.38.0/lib/asyn-thread.c:188-373 | When both parties are through, the shared data, its mutex and the handle have been released exactly once, and a list found was either handed over once or freed once |
| `ResolverThread.HandsOverTheAnswer` | 代码/curl-7.38.0/curl-7.38.0/lib/asyn-thread.c:247-259 | What is handed to the callback is what the thread found, read after the thread set `done` |
| `ResolverThread.ServedUnlessCancelled` | 代码/curl-7.38.0/curl-7.38.0/lib/asyn-thread.c:247-548 | A run that ends with both parties through has handed over what the thread found, once, or nothing if the look-up was cancelled |
| `ResolverThread.PollReads` | 代码/curl-7.38.0/curl-7.38.0/lib/asyn-thread.c:511-513 | A poll reads whether the thread has set `done` |
| `ResolverThread.PollEnds` | 代码/curl-7.38.0/curl-7.38.0/lib/asyn-thread.c:515-545 | A poll that has read `done` set completes and hands the result over; one that has not comes back with nothing handed over and a new interval |
| `ResolverThread.LastPoll` | 代码/curl-7.38.0/curl-7.38.0/lib/asyn-thread.c:516-525 | Once the thread has set `done`, at most one more poll is started |
| `ResolverThread.UsesLiveData` | 代码/curl-7.38.0/curl-7.38.0/lib/asyn-thread.c:270-373 | No step but the detach uses the shared data after it is freed |
| `ResolverThread.DetachIsLate` | 代码/curl-7.38.0/curl-7.38.0/lib/asyn-thread.c:350-357 | The detach, which reads the handle after the unlock, finds the data gone exactly if the thread has already finished |
| `ResolverThread.DetachCanBeLate` | 代码/curl-7.38.0/curl-7.38.0/lib/asyn-thread.c:350-357 | A run in which that happens |
| `ResolverThread.NeverStuck` | 代码/curl-7.38.0/curl-7.38.0/lib/asyn-thread.c:462-548 | Until both parties are through, some step other than starting a poll can be taken |
| `ResolverThread.RunsAreShort` | 代码/curl-7.38.0/curl-7.38.0/lib/asyn-thread.c:462-548 | A run takes at most 15 steps and four more for each poll |
| `ResolverThread.Invariant` | 代码/curl-7.38.0/curl-7.38.0/lib/asyn-thread.c:270-373 | Mutex, flag, ownership, list, handle and back-off invariants hold in every reachable state |
| `ResolverThread.StepKeepsFlagInv` | 代码/curl-7.38.0/curl-7.38.0/lib/asyn-thread.c:286-357 | Who set `done` first decides where both parties can be |
| `ResolverThread.StepKeepsFreeInv` | 代码/curl-7.38.0/curl-7.38.0/lib/asyn-thread.c:286-373 | The data is destroyed and freed once, by the later party |
| `ResolverThread.StepKeepsListInv` | 代码/curl-7.38.0/curl-7.38.0/lib/asyn-thread.c:247-259 | The list stays in the shared data until it is handed over or freed |
| `ResolverThread.StepKeepsHandleInv` | 代码/curl-7.38.0/curl-7.38.0/lib/asyn-thread.c:350-362 | The handle is given back once, by a join or a detach |
| `ResolverThread.StepKeepsMutexInv` | 代码/curl-7.38.0/curl-7.38.0/lib/asyn-thread.c:286-353 | At most one party holds the mutex, and only between its acquire and its release |
| `ResolverThread.StepKeepsIntervalInv` | 代码/curl-7.38.0/curl-7.38.0/lib/asyn-thread.c:527-545 | The poll interval is 0, a power of two up to 128, or 250 ms |
| `ResolverThread.IntervalBacksOff` | 代码/curl-7.38.0/curl-7.38.0/lib/asyn-thread.c:527-545 | In every run the poll interval is that of the number of polls that came back after it had passed |
| `ResolverThread.BackOffIsCapped` | 代码/curl-7.38.0/curl-7.38.0/lib/asyn-thread.c:532-540 | After k such polls it is the lesser of 2^(k-1) and 250 ms |
| `ResolverAres.Lookup.Compound` | 代码/curl-7.38.0/curl-7.38.0/lib/asyn-ares.c:430-444 | Walks the new list to its tail and splices it in front of the old one, in place |
| `ResolverAres.Lookup.QueryCompleted` | 代码/curl-7.38.0/curl-7.38.0/lib/asyn-ares.c:451-482 | One completion: one query less pending; a success puts all its addresses, in order, in front of those gathered, anything else leaves them; a success is kept; a destroyed channel is ignored |
| `ResolverAres.Lookup.Arrive` | 代码/curl-7.38.0/curl-7.38.0/lib/asyn-ares.c:253-303 | Any number of completions while waiting |
| `ResolverAres.Lookup.IsResolved` | 代码/curl-7.38.0/curl-7.38.0/lib/asyn-ares.c:312-342 | The whole list and the status are handed over when nothing is pending any more, once, and not before |
| `ResolverAres.Lookup.Destroy` | 代码/curl-7.38.0/curl-7.38.0/lib/asyn-ares.c:189-207 | Frees what has been gathered, if anything |
| `ResolverAres.Lookup.Cancel` | 代码/curl-7.38.0/curl-7.38.0/lib/asyn-ares.c:179-207 | A cancelled look-up hands over nothing and frees what was gathered |
| `ResolverAres.Lookup.CancelQueries` | 代码/curl-7.38.0/curl-7.38.0/lib/asyn-ares.c:406-410 | Every pending query completes as cancelled |
| `ResolverAres.Lookup.WaitResolv` | 代码/curl-7.38.0/curl-7.38.0/lib/asyn-ares.c:355-427 | The wait ends within its time in rounds, with the list handed over or no query pending |
| `ResolverAres.FromHost` | 代码/curl-7.38.0/curl-7.38.0/lib/curl_addrinfo.c:270-362 | A new linked list of the addresses in order, null for none |
| `ResolverAres.SuccessIsKept` | 代码/curl-7.38.0/curl-7.38.0/lib/asyn-ares.c:479-481 | The status is success exactly if some completed query succeeded |
| `ResolverAres.GatheredSplits` | 代码/curl-7.38.0/curl-7.38.0/lib/asyn-ares.c:430-444 | The gathered addresses are the lists of the successful queries, latest first |
| `ResolverAres.GatheredOne` | 代码/curl-7.38.0/curl-7.38.0/lib/asyn-ares.c:473-478 | A success adds all the addresses of its host entry, anything else none |
| `ResolverAres.GatheredFrom` | 代码/curl-7.38.0/curl-7.38.0/lib/asyn-ares.c:430-478 | What is gathered is the latest success, whole and in order, in front of what was gathered before it |
| `ResolverAres.FailureIsLatest` | 代码/curl-7.38.0/curl-7.38.0/lib/asyn-ares.c:479-481 | Without a success the status is that of the latest completion |
| `ResolverAres.AddressesAt` | 代码/curl-7.38.0/curl-7.38.0/lib/asyn-ares.c:430-444 | The list has its addresses in the order of its nodes |
| `ResolverAres.NothingGathered` | 代码/curl-7.38.0/curl-7.38.0/lib/asyn-ares.c:473-481 | An error is never handed over together with addresses |
| `ResolverAres.OrderIsImmaterial` | 代码/curl-7.38.0/curl-7.38.0/lib/asyn-ares.c:451-482 | In whatever order the queries complete, the same addresses are gathered and the look-up succeeds or fails alike |

## Left out

- MinCost: needs boards of non-negative length whose total is below the sentinel 10^18, which the loop cannot tell from an unused place; the 64-bit sums then do not overflow.
- MinCostAsWritten: covers boards up to 660865023, for which the subtraction in `cmp` itself cannot overflow.
- Parcels: `int` overflow of the products of counts is not modelled.
- Scenario: `int` overflow of the count, beyond `SwapSort.InversionsBound`, is not modelled; the difference of any two numbers is an int, since the comparison is not defined beyond that.
- Solve: stick lengths are positive and their number is at most 65, the size of the arrays; `int` overflow of the total is not modelled.
- RoundTrip: the condition is sufficient for whole documents; for single texts, attributes, comments, CDATA sections and unknown tags `XmlLaws` has the exact one. The style's indent and line break are white space; unknown tags must not look like another kind of node, and the parts of a declaration hold neither a double quote nor an ampersand.
- ParseDocumentAt: error positions, byte order marks and the encoding switch of a declaration are not modelled.
- ParseInto: each node is linked after the whole text is read and not as soon as it is read.
- LinkEndChild: the node must not share anything with the tree, and the document's error for a refused document is not modelled; likewise for the other edits.
- RemoveChild: the memory of a deleted node is not modelled; it stays out of the list.
- Clone: location, user data and a document's own settings are not copied in the model.
- Stamp: the one-byte encoding only; the position asked for lies within the text.
- Strings: `XmlTree` and `XmlAttributes` take string values as sequences, with the C string calls of the build without STL, and without `TiXmlString` itself or allocation failure.
- Decode: the tolerant decoder takes ASCII text only, since its table has 128 entries and is indexed without a check.
- DecodeQuantum: padding in the middle of a group is excluded, as its only caller does before.
- Encode: overflow of the buffer size in `size_t`, allocation failure and the host-to-network character conversion are not modelled.
- HandsOverTheAnswer: the DNS cache that takes the list over, and its failure to store it, are not modelled.
- ReleasedExactlyOnce: only a thread that really started is covered, and both `pthread_join` and the mutex always succeed.
- WaitResolv: the clock does not run back between rounds; the length of each poll and the progress callback's own work are parameters.
- UTF-8 mode, file and console I/O, `Print` to a file, stream operators, queries by name or type, handles, and number conversions of TinyXML.
- The main loops over several inputs: one round of each program is modelled, its input being a parameter and its output a result.
- c-ares, sockets, polling and thread primitives: completions, steps of the other party and elapsed times are parameters; `ares.h` is not part of this model.
- The remaining programs of the collection, which are list wrappers, short arithmetic, or have no specification that they meet.
