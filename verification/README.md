# Verified models of the XML engine, the JSON tokenizer and the MD5 digest

This project models the parts of the ItemzFlow sources that do the most work behind the
smallest interfaces, and proves what they are relied on for:

* the XML engine `external/pugixml/pugixml.cpp`, as it is compiled here (`char` mode, no
  compact nodes, XPath on, no exceptions);
* the restartable JSON tokenizer `itemz-daemon/include/jsmn.h` (lenient mode, no parent
  links);
* the chunked MD5 digest `itemz-daemon/source/md5.cpp`.

`dafny verify dfyconfig.toml` checks everything.

## How the modules fit together

**XPath.** `DocumentOrder` and `Documents` describe a document as a map from paths to nodes
and prove the theory of preorder traversal that everything else rests on. `Axes` has the
axis loops. `Xpath` has expressions, values and the library functions; `Semantics` reads an
expression as sets of nodes, without evaluation modes or order bookkeeping; `Evaluator` is
what the engine runs, with sequences that claim an order, early exit and predicate tags;
`EvaluatorSound` proves that the two agree. `StringValues` and `XpathLaws` say what the parts
mean that both use: string-values, comparisons, conversions, connectives and node tests.
`Optimizer` rewrites expressions, `OptimizerSound` proves that this changes nothing an
application can see, and `OptimizerWork` that it leaves none of the forms it is there for. `NodeSets`,
`Sorting`, `Hashing`, `Duplicates` and `StepLoops` have the in-place algorithms on node sets
and tie them to the evaluator's functions. `AttributeSteps` says when a step that names an
attribute is what XPath 1.0 says it is.

**Document order by address.** `Comparator` has the walk over the tree with its shortcut
through text addresses, which it takes to be faithful. `BufferAddresses` is the state machine
of edits that shows when it is: an edit keeps the addresses in use in order, or raises the
flag that stops their use. `ParsedAddresses` follows the parser through the buffer and shows
that what it stores is in order and apart, item by item the nodes and attributes of the
document; `BufferSharing` shows that what is overwritten in place is used by nothing else;
`ParsedNodes` turns the document into the tree that XPath sees, and `TreeEdits` has the edits
of that tree with what each does to the list of its nodes and attributes, and puts the parts
together in `TreeEdits.CompareEdited`.

**Text and markup.** `Escapes` defines what references and line ends turn into, `References`
which code point every reference stands for, `InPlaceText`
has the gap buffer and the scanning loops that do it in place, `EscapedText` the printer's
escaping and the round trips. `Markup` has documents and recursive printing, `MarkupPrinter`
what is left to be printed at every turn of a walk, `SimpleNodes` the loops for comments,
instructions and CDATA, and `DomPrinter` the printer's walk over linked nodes. `MarkupParser`
and `MarkupLoop` have the parser as a state machine and as the loop on the buffer;
`MarkupRoundTrip` puts print and parse together, in every format, and `MarkupBuffer` does so
through the buffer. `PrintedLines` says how lines begin, `ParserOptions` what becomes of white
space, and `Spellings` what the characters are. `Integers` reads and writes numbers,
`IntegerTexts` says which number a text is. `Utf` and `BufferedWriter` have the transcoders and the
chunking output buffer.

**Nodes.** `DomLinks` has the sibling lists with their cyclic back link, `DomTree` the
documents as trees of such nodes under moves, insertions and removals, `DomCopy` the copying
of a node with all below it, also to a place inside itself. `Allocator` has the pages that
nodes and strings are allocated in.

**Tokenizer and digest.** `Jsmn` is the tokenizer as a state machine with its theorems,
`JsmnParser` the loops over the token array; `JsonTexts` has JSON values, their texts and their
tokens, and `JsonRuns` proves that the tokenizer finds these in those. `Md5Rounds` has the compression function in the
RFC's form and in the unrolled form, `Md5` the streaming context, `Md5Vector` one digest of the
RFC's test suite, operation by operation. `Arithmetic` has facts
about division that several modules share.

Two conventions recur. Code that updates memory step by step is a method on arrays or
objects, proved to compute a function of what was there before; the theorems are about that
function. And where a proof must not look inside a large definition, the definition is
handed over as a function value together with a predicate that says what it computes
(`IsCompression`, `Runs`, `Undoes`, `IsPrinter`, `IsView`), or a fact about it is kept under a
quantifier until it is asked for (`SealedAt`, `ReadsValue`, `Written`).

## Where the code and its description differ

* The comparator answers `true` for an attribute without an address compared with itself
  (`external/pugixml/pugixml.cpp:8296-8303`), so it is a strict order only on distinct
  arguments; `Comparator.CompareNodes` states both cases, and `Sorting.Sort` needs no more.
* An attribute step with a name test stops at the first attribute of that name
  (`external/pugixml/pugixml.cpp:10096-10102`), where XPath 1.0 selects every attribute with
  the name. The two agree exactly on elements that do not repeat the name
  (`AttributeSteps.OneAttributeExact`), and the parser accepts elements that do
  (`AttributeSteps.RepeatedParses`). The meaning of expressions follows the code.
* Comparing a boolean with a node-set by one of `<`, `<=`, `>`, `>=` converts the nodes to
  numbers (`external/pugixml/pugixml.cpp:9830-9863`), where XPath 1.0 converts the set to a
  boolean (section 3.4). `XpathLaws.BooleanBesideNothing` has a case where the two differ; all
  other comparisons are those of XPath 1.0 (`XpathLaws.NodesCompared`, `XpathLaws.ScalarsEqual`).
* Carriage returns in character data are written as they are, although the parser turns
  them into newlines by default, so such data does not survive printing and parsing;
  `EscapedText.TextSurvives` and `MarkupRoundTrip.DocumentSurvives` say exactly when it
  does.

## Model

| member | source | states |
|---|---|---|
| `DocumentOrder.BeforeTotal` | external/pugixml/pugixml.cpp:8279-8331 | document order is total on distinct nodes and attributes, and irreflexive |
| `DocumentOrder.BeforeTransitive` | external/pugixml/pugixml.cpp:8279-8331 | document order is transitive |
| `DocumentOrder.SortedOf` | external/pugixml/pugixml.cpp:8992-9013 | every node set has an arrangement in strict document order with exactly its members |
| `DocumentOrder.IncreasingUnique` | external/pugixml/pugixml.cpp:8992-9013 | ... and only one |
| `Documents.FirstChildIsNext` | external/pugixml/pugixml.cpp:10114-10144 | in document order nothing lies between a node and its first child |
| `Documents.NextSiblingIsNext` | external/pugixml/pugixml.cpp:10164-10199 | in document order nothing lies between the end of a subtree and its next sibling |
| `Documents.LastChildCloses` | external/pugixml/pugixml.cpp:10201-10241 | the subtree of the last child ends where that of its parent ends |
| `Axes.AxesPartition` | external/pugixml/pugixml.cpp:10090-10281 | self, ancestor, descendant, following and preceding put every pair of nodes of one document into exactly one class, and the forward axes are document order (XPath 1.0, section 2.2) |
| `Axes.AttributeAxesPartition` | external/pugixml/pugixml.cpp:10283-10362 | the same for the axes that start at an attribute |
| `Axes.FillDescendant` | external/pugixml/pugixml.cpp:10114-10144 | the loop adds exactly the descendants that pass the test, once each, in document order, or only the first |
| `Axes.FillFollowing` | external/pugixml/pugixml.cpp:10164-10199 | the same for following, over the whole rest of the document |
| `Axes.FillPreceding` | external/pugixml/pugixml.cpp:10201-10241 | the same for preceding, in reverse document order, leaving out ancestors |
| `Axes.FillAncestor` | external/pugixml/pugixml.cpp:10243-10261 | the same for ancestor and ancestor-or-self, in reverse document order |
| `Axes.FillChild` | external/pugixml/pugixml.cpp:10105-10112 | the same for child |
| `Axes.FillFollowingSibling` | external/pugixml/pugixml.cpp:10146-10153 | the same for following-sibling |
| `Axes.FillPrecedingSibling` | external/pugixml/pugixml.cpp:10155-10162 | the same for preceding-sibling, in reverse document order |
| `Axes.FillAttribute` | external/pugixml/pugixml.cpp:10096-10103 | the same for attributes, in their order |
| `Axes.StepFill` | external/pugixml/pugixml.cpp:10090-10373 | for every axis and every starting node or attribute, the loop adds the nodes of the axis that pass the test in the order of the axis; asked for one, the first of them |
| `Comparator.NodeIsBeforeSibling` | external/pugixml/pugixml.cpp:8174-8196 | the two-ended sibling scan decides which sibling comes first |
| `Comparator.NodeIsBefore` | external/pugixml/pugixml.cpp:8198-8239 | the walk to a common parent decides preorder, for nodes at any depths |
| `Comparator.CompareNodes` | external/pugixml/pugixml.cpp:8279-8331 | with a faithful address shortcut the comparator is document order on distinct arguments; on equal ones it is true exactly for an attribute without an address |
| `ParsedAddresses.LoadedInOrder` | external/pugixml/pugixml.cpp:3261-3497 | parsing stores one item for every node and attribute of the document that is parsed, in document order, with strings of the right sizes, which lie in the buffer in that order and do not overlap |
| `ParsedNodes.ParsedDescribed` | external/pugixml/pugixml.cpp:3524-3577 | the nodes and attributes of a parsed document, as XPath sees them, are a well-formed tree, and in document order they are the items that parsing stored |
| `ParsedNodes.AddressedFaithful` | external/pugixml/pugixml.cpp:8248-8277 | while the invariant on addresses holds, the shortcut that looks at them agrees with document order on nodes |
| `TreeEdits.PutFlags` | external/pugixml/pugixml.cpp:1236-1333 | replacing a subtree replaces exactly its part of the list of nodes and attributes in document order |
| `TreeEdits.EditListed` | external/pugixml/pugixml.cpp:6040-6290 | every edit of the tree (names and values, new, copied, moved and removed nodes and attributes, a second buffer) does to the list what the state machine of edits says |
| `TreeEdits.RunListed` | external/pugixml/pugixml.cpp:6040-6290 | ... so does every run of edits |
| `TreeEdits.EditedFaithful` | external/pugixml/pugixml.cpp:8248-8277 | after any run of edits on the tree of a parsed document the addresses still in use are faithful to the tree that the edits have made |
| `TreeEdits.CompareEdited` | external/pugixml/pugixml.cpp:8279-8331 | main result: after any such run the comparator is document order on distinct nodes and attributes |
| `AttributeSteps.OneAttributeExact` | external/pugixml/pugixml.cpp:10096-10103 | a step that names its attribute and stops at the first selects what XPath 1.0 selects exactly if no two attributes of the node have the name |
| `AttributeSteps.UniqueNamesSelect` | external/pugixml/pugixml.cpp:10375-10420 | without repeated attribute names no step of any expression stops early for this reason |
| `AttributeSteps.RepeatedParses` | external/pugixml/pugixml.cpp:3292-3359 | the parser accepts an element with two attributes of one name, whatever their values; there the step selects one of two |
| `BufferAddresses.StepKeeps` | external/pugixml/pugixml.cpp:2374-2421 | every edit (rename, value change, insertion, copy, move, removal, second buffer) keeps the addresses in use in document order, or raises the flag that stops their use |
| `BufferAddresses.RunKeeps` | external/pugixml/pugixml.cpp:4408-4443 | ... hence every run of edits does |
| `BufferSharing.EditKeepsExclusive` | external/pugixml/pugixml.cpp:2358-2421 | every edit keeps it that strings in a buffer that overlap are marked as shared at both ends |
| `BufferSharing.RunKeepsExclusive` | external/pugixml/pugixml.cpp:4408-4443 | ... hence every run of edits does, from a parsed document on |
| `BufferSharing.NameOverwritesItself` | external/pugixml/pugixml.cpp:2358-2421 | after any run of edits, a name that is set in place is written over no more than the old name, which no other string of the document overlaps |
| `BufferSharing.ValueOverwritesItself` | external/pugixml/pugixml.cpp:2358-2421 | the same for values |
| `BufferAddresses.AddressesAgree` | external/pugixml/pugixml.cpp:8248-8277 | in a state that keeps the invariant, of two items that still have addresses the one with the lower address comes first |
| `Sorting.InsertionSort` | external/pugixml/pugixml.cpp:7619-7639 | sorts the range and rearranges nothing else, for any order on different members and whatever it says of a member compared with itself, unless the member is repeated |
| `Sorting.Median3` | external/pugixml/pugixml.cpp:7641-7651 | leaves a median of three |
| `Sorting.Partition3` | external/pugixml/pugixml.cpp:7653-7678 | ends with less, equal, greater around the pivot, also where the swapped equal block overlaps itself; a pivot that is before itself ends up among the lesser ones |
| `Sorting.Sort` | external/pugixml/pugixml.cpp:7680-7708 | sorted, a permutation, and recursion at most the binary logarithm of the length deep, for every strict total order, and for every comparator that is one on different members if no member is repeated |
| `Hashing.ProbesDistinct` | external/pugixml/pugixml.cpp:7710-7743 | in a table whose size is a power of two the triangular probes never repeat within one round |
| `Hashing.ProbesReachAll` | external/pugixml/pugixml.cpp:7710-7743 | ... so they reach every bucket |
| `Duplicates.HashInsert` | external/pugixml/pugixml.cpp:7710-7743 | with one free bucket the table-is-full exit is never reached; the key is reported new exactly if it was not there |
| `Duplicates.KeepFirstInPlace` | external/pugixml/pugixml.cpp:9120-9156 | of an unsorted set exactly the first occurrence of every node is kept, in order |
| `Duplicates.UniqueInPlace` | external/pugixml/pugixml.cpp:7594-7617 | of a sorted set runs of equal nodes are reduced to one |
| `NodeSets.RemoveDuplicatesKeeps` | external/pugixml/pugixml.cpp:9120-9156 | removing duplicates leaves the same set without repetitions |
| `NodeSets.SortDoSorts` | external/pugixml/pugixml.cpp:8992-9013 | sorting a node set, by reversal or by comparison as its claimed order allows, gives the one arrangement in document order |
| `NodeSets.FirstNodeMeans` | external/pugixml/pugixml.cpp:9015-9034 | the first node of a set that was evaluated only as far as needed is the first of the full set in document order |
| `NodeSets.SumAnyOrder` | external/pugixml/pugixml.cpp:10674-10690 | with exact addition the sum over a node set does not depend on its order |
| `StepLoops.GetOrder` | external/pugixml/pugixml.cpp:8976-8990 | the order that is claimed of distinct nodes is true of them, and none is claimed only if they have neither |
| `StepLoops.RemoveIf` | external/pugixml/pugixml.cpp:9871-9895 | the filtering loop keeps the nodes whose predicate holds, in place and in order, or stops at the first |
| `StepLoops.ApplyPredicateNumberConst` | external/pugixml/pugixml.cpp:9923-9949 | a constant position keeps at most that node |
| `StepLoops.ApplyPredicateAt` | external/pugixml/pugixml.cpp:9951-9963 | the choice of loop by the kind of predicate agrees with the evaluator function |
| `StepLoops.StepInput` | external/pugixml/pugixml.cpp:10375-10420 | one starting node adds what the evaluator function says, after its predicates |
| `StepLoops.StepDo` | external/pugixml/pugixml.cpp:10375-10420 | the loop over the starting nodes computes the evaluator function for a step, in every evaluation mode |
| `StepLoops.SortNodeSet` | external/pugixml/pugixml.cpp:9108-9113 | sorting the set in place, with the comparator as it is, computes the evaluator function for it |
| `StringValues.StringValueContributed` | external/pugixml/pugixml.cpp:8138-8167 | the string-value of an element or document is its own value followed by what its children contribute, in order: text its value, an element what its own children do, anything else nothing |
| `StringValues.StringValueOwn` | external/pugixml/pugixml.cpp:8122-8136 | that of any other node is its value, of a declaration or document type nothing |
| `StringValues.WalkTexts` | external/pugixml/pugixml.cpp:8146-8165 | the walk over everything below a node, by first child, next sibling and parent, collects exactly that |
| `StringValues.StringValueOf` | external/pugixml/pugixml.cpp:8120-8172 | main result: the function with its walk computes the string-value of every node and attribute |
| `XpathLaws.NumbersCompared` | external/pugixml/pugixml.cpp:10482-10498 | the six comparisons of finite numbers are those of the numbers |
| `XpathLaws.SpecialCompared` | external/pugixml/pugixml.cpp:9707-9717 | infinities stand at the two ends, and with NaN only inequality holds |
| `XpathLaws.Turned` | external/pugixml/pugixml.cpp:10482-10498 | turning the operands around turns the operator around, for values of any types |
| `XpathLaws.ScalarsEqual` | external/pugixml/pugixml.cpp:9711-9726 | equality is that of booleans if there is one, else of numbers if there is one, else of strings; inequality is its opposite (XPath 1.0, section 3.4) |
| `XpathLaws.ScalarsRelated` | external/pugixml/pugixml.cpp:9800-9806 | the other comparisons are of numbers |
| `XpathLaws.NodesCompared` | external/pugixml/pugixml.cpp:9745-9790 | a comparison of a node-set with a number or string holds exactly if it does for the string-value of a member |
| `XpathLaws.TwoSetsCompared` | external/pugixml/pugixml.cpp:9727-9744 | two node-sets compare exactly if the string-values of a member of each do |
| `XpathLaws.BooleanAndNodes` | external/pugixml/pugixml.cpp:9753-9754 | a boolean equals a node-set if it says whether that has a member |
| `XpathLaws.BooleanBesideNothing` | external/pugixml/pugixml.cpp:9830-9846 | the other comparisons of a boolean with a node-set differ from XPath 1.0: true is not greater than the empty set |
| `XpathLaws.Converted` | external/pugixml/pugixml.cpp:10585-10608 | booleans, numbers and strings convert to each other as sections 4.2 to 4.4 of XPath 1.0 say |
| `XpathLaws.FirstConverted` | external/pugixml/pugixml.cpp:11020-11027 | a node-set converts to the string-value of its first member in document order |
| `XpathLaws.ConnectivesMean` | external/pugixml/pugixml.cpp:10472-10532 | or, and, not and boolean() of any operands |
| `XpathLaws.ArithmeticMeans` | external/pugixml/pugixml.cpp:10612-10635 | arithmetic takes its operands as numbers, in their order |
| `XpathLaws.StringsMean` | external/pugixml/pugixml.cpp:10500-10518 | starts-with, contains and concat by what the strings are made of |
| `XpathLaws.TextsPassed` | external/pugixml/pugixml.cpp:10859-10888 | substring-before and substring-after get their arguments as strings, in their order |
| `XpathLaws.PlacePassed` | external/pugixml/pugixml.cpp:10891-10940 | substring gets a string and one or two numbers |
| `XpathLaws.OnePassed` | external/pugixml/pugixml.cpp:10532-10960 | normalize-space, lang and the functions of one number get their argument in its type, normalize-space the context node if it has none |
| `XpathLaws.DefaultArgument` | external/pugixml/pugixml.cpp:10646-10672 | string, number and string-length without an argument take the context node |
| `XpathLaws.TranslatedCharacter` | external/pugixml/pugixml.cpp:8704-8726 | the first occurrence of a character in the second argument decides what it is translated to, or that it goes |
| `XpathLaws.TranslatedJoined` | external/pugixml/pugixml.cpp:8704-8726 | translation goes character by character |
| `XpathLaws.SumsUp` | external/pugixml/pugixml.cpp:10674-10690 | with exact addition the sum over nodes is the sum of their numbers |
| `XpathLaws.RootIsTop` | external/pugixml/pugixml.cpp:10375-10420 | the root of a node is the node at or above it that has no parent |
| `XpathLaws.TestsPartition` | external/pugixml/pugixml.cpp:10015-10088 | of the tests for kinds, every node that is no document, declaration or document type passes exactly one |
| `XpathLaws.NamesNarrow` | external/pugixml/pugixml.cpp:10015-10088 | a test with a name or prefix selects those with that name or prefix among the nodes of its kind |
| `XpathLaws.NamespacesHidden` | external/pugixml/pugixml.cpp:8788-8791 | exactly the declarations of namespaces are no attributes to XPath |
| `EvaluatorSound.PositionFree` | external/pugixml/pugixml.cpp:11247-11276 | an expression that is classified as position-invariant means the same at every position and size |
| `EvaluatorSound.ApplyPredicatesAgrees` | external/pugixml/pugixml.cpp:9951-9973 | applying predicates with early exit gives the beginning of what they mean |
| `EvaluatorSound.StepLoopAgrees` | external/pugixml/pugixml.cpp:10375-10420 | accumulating a step over its starting nodes yields the union, with a truthful claim about its order and without needless duplicates |
| `EvaluatorSound.EvalAgrees` | external/pugixml/pugixml.cpp:10472-11110 | main result: in every evaluation mode the evaluator agrees with the set-based meaning of the expression: same value; for node sets all members, or some member exactly if there is one, or the first in document order |
| `OptimizerSound.EarlyExit` | external/pugixml/pugixml.cpp:9795-9798 | stopping early is sound: first-mode yields the same first node as full evaluation, any-mode is empty exactly if the full set is |
| `OptimizerSound.MergedUnion` | external/pugixml/pugixml.cpp:11206-11220 | a descendant-or-self step and the step behind it may be merged where no predicate looks at positions |
| `OptimizerSound.TableTranslates` | external/pugixml/pugixml.cpp:8704-8786 | translation through the 128-entry table gives the same string as searching the argument, whenever a table is built |
| `OptimizerSound.AttributeMeaning` | external/pugixml/pugixml.cpp:11236-11244 | the attribute comparison means what comparing the attribute step with the string means |
| `OptimizerSound.OptimizeShape` | external/pugixml/pugixml.cpp:11167-11245 | optimizing keeps an expression well built and of the same type |
| `OptimizerSound.OptimizeMeaning` | external/pugixml/pugixml.cpp:11182-11245 | main result: the optimized expression means the same in every document and context |
| `OptimizerWork.OptimizeSimplifies` | external/pugixml/pugixml.cpp:11182-11245 | no `//` in front of a step that may be merged, no translation by ASCII constants, no comparison of an attribute with a string and no comparison of the position with a number is left anywhere in the expression |
| `OptimizerWork.StepSimplified` | external/pugixml/pugixml.cpp:11206-11220 | ... a merged step takes over what was in front of the `//`, which cannot be another one |
| `OptimizerWork.AnywhereMerged` | external/pugixml/pugixml.cpp:11206-11220 | `//name` becomes one step down |
| `OptimizerSound.OptimizedAgrees` | external/pugixml/pugixml.cpp:11182-11245 | evaluating the optimized expression, in any mode, agrees with the meaning of the original one |
| `OptimizerSound.OptimizedScalars` | external/pugixml/pugixml.cpp:10472-11033 | ... so boolean, number and string results do not change |
| `OptimizerSound.OptimizedNodes` | external/pugixml/pugixml.cpp:11035-11110 | ... and node results keep their members, their sorted form and their first node |
| `References.Utf8Decodes` | external/pugixml/pugixml.cpp:1489-1535 | the bytes that a reference turns into decode to exactly its code point, whatever follows (RFC 3629, section 3) |
| `References.Utf8Examples` | external/pugixml/pugixml.cpp:1489-1535 | the characters of the examples in RFC 3629, section 7 |
| `References.DecimalReference` | external/pugixml/pugixml.cpp:2471-2525 | every decimal numeral of a code point between `&#` and `;` stands for it |
| `References.HexadecimalReference` | external/pugixml/pugixml.cpp:2471-2525 | every hexadecimal numeral, in upper case, lower case or both, between `&#x` and `;` does |
| `References.Numeral` | external/pugixml/pugixml.cpp:2471-2525 | every number has a numeral in either case |
| `References.LessReference` | external/pugixml/pugixml.cpp:2527-2600 | `&lt;` stands for its character (XML 1.0, section 4.6) |
| `References.GreaterReference` | external/pugixml/pugixml.cpp:2527-2600 | `&gt;` does |
| `References.AmpersandReference` | external/pugixml/pugixml.cpp:2527-2600 | `&amp;` does |
| `References.ApostropheReference` | external/pugixml/pugixml.cpp:2527-2600 | `&apos;` does |
| `References.QuoteReference` | external/pugixml/pugixml.cpp:2527-2600 | `&quot;` does |
| `Escapes.ConvertShrinks` | external/pugixml/pugixml.cpp:2423-2603 | a conversion is never longer than the text it replaces |
| `Escapes.PieceStop` | external/pugixml/pugixml.cpp:2676-2725 | converting references as wholes ends where scanning byte by byte ends |
| `InPlaceText.Gap.Push` | external/pugixml/pugixml.cpp:2434-2449 | pushing a gap collapses the previous one and keeps the text so far |
| `InPlaceText.Gap.Flush` | external/pugixml/pugixml.cpp:2451-2462 | flushing leaves the text so far in one piece |
| `InPlaceText.ScanReference` | external/pugixml/pugixml.cpp:2465-2603 | recognises exactly the character references and the five predefined entities, with 32-bit wrap-around, and reads past nothing that would end the text |
| `InPlaceText.StrconvEscape` | external/pugixml/pugixml.cpp:2465-2603 | a reference is replaced in place by what it stands for, anything else stays |
| `InPlaceText.ParseSimple` | external/pugixml/pugixml.cpp:2869-2893 | the buffer holds exactly the unescaped attribute value, NUL-terminated; everything outside the attribute is untouched; it fails exactly if the closing quote is missing |
| `InPlaceText.ParseEol` | external/pugixml/pugixml.cpp:2837-2867 | the same with line ends made single newlines |
| `InPlaceText.ParseWconv` | external/pugixml/pugixml.cpp:2801-2835 | the same with white space made spaces, a carriage return and newline one space (XML 1.0, section 3.3.3) |
| `InPlaceText.ParsePcdata` | external/pugixml/pugixml.cpp:2676-2725 | the same for character data, up to the next tag or the end, with trimming of the converted text |
| `InPlaceText.PrintedAttributeParses` | external/pugixml/pugixml.cpp:2799-2893 | a printed attribute value is left in the buffer exactly as it was, and parsing goes on behind the quote |
| `InPlaceText.PrintedTextParses` | external/pugixml/pugixml.cpp:2676-2725 | printed character data is left in the buffer with its line ends normalised |
| `EscapedText.TextOutputEscaped` | external/pugixml/pugixml.cpp:3925-3975 | the run-wise loop writes the escaped text byte for byte |
| `Spellings.EscapedBytes` | external/pugixml/pugixml.cpp:3925-3975 | which bytes are written as references or entities, and how |
| `EscapedText.AttributeRoundTrip` | external/pugixml/pugixml.cpp:2799-2893 | parsing undoes escaping for every attribute value without NUL, either quote, and every treatment of white space |
| `EscapedText.TextRoundTrip` | external/pugixml/pugixml.cpp:2676-2725 | parsing undoes escaping for character data, up to the normalisation of line ends (XML 1.0, section 2.11) |
| `EscapedText.TextSurvives` | external/pugixml/pugixml.cpp:2676-2725 | character data comes back unchanged exactly if it contains no carriage return |
| `EscapedText.NormalisedSame` | external/pugixml/pugixml.cpp:2699-2704 | normalised text has no carriage return; normalising changes exactly the texts that have one |
| `MarkupPrinter.GoDown` | external/pugixml/pugixml.cpp:4282-4305 | what is left to write before a node with children is its start and what is left before its first child |
| `MarkupPrinter.GoAlong` | external/pugixml/pugixml.cpp:4314-4321 | what is left to write after a node with a next sibling is what is left before that sibling |
| `MarkupPrinter.GoUp` | external/pugixml/pugixml.cpp:4323-4339 | what is left after a last child is the end of its parent and what is left after that |
| `DomPrinter.NodeOutput` | external/pugixml/pugixml.cpp:4255-4346 | the walk by first-child, next-sibling and parent links terminates and writes what recursive printing writes, for every tree of linked nodes of all kinds and every combination of the format flags |
| `DomPrinter.WriteAttributes` | external/pugixml/pugixml.cpp:4093-4119 | the loop over the attributes |
| `DomPrinter.WriteSimple` | external/pugixml/pugixml.cpp:4193-4246 | the nodes without children |
| `SimpleNodes.OutputComment` | external/pugixml/pugixml.cpp:4047-4070 | the nested loops write the comment with spaces where hyphens would end it |
| `SimpleNodes.CommentSafe` | external/pugixml/pugixml.cpp:4047-4070 | no text makes a comment that ends early (XML 1.0, section 2.5) |
| `SimpleNodes.CommentSame` | external/pugixml/pugixml.cpp:4047-4070 | a comment is written as it is exactly if its text is one that a comment may have |
| `SimpleNodes.CommentSpaced` | external/pugixml/pugixml.cpp:4047-4070 | all that is done to its text is that spaces are put in |
| `SimpleNodes.OutputInstructionValue` | external/pugixml/pugixml.cpp:4072-4091 | the same for the value of a processing instruction |
| `SimpleNodes.InstructionSafe` | external/pugixml/pugixml.cpp:4072-4091 | no text ends an instruction early (XML 1.0, section 2.6) |
| `SimpleNodes.InstructionSame` | external/pugixml/pugixml.cpp:4072-4091 | an instruction is written as it is exactly if nothing in it would end it |
| `SimpleNodes.InstructionSpaced` | external/pugixml/pugixml.cpp:4072-4091 | all that is done to its value is that spaces are put in |
| `SimpleNodes.OutputCdata` | external/pugixml/pugixml.cpp:3985-4005 | the text is cut into sections |
| `SimpleNodes.CdataRoundTrip` | external/pugixml/pugixml.cpp:3985-4005 | whatever the text, the sections read back as the text (XML 1.0, section 2.7) |
| `MarkupLoop.ParseTree` | external/pugixml/pugixml.cpp:3261-3497 | the loop on the buffer, which ends names and converts text in place, computes the state that parsing the untouched text computes |
| `MarkupLoop.ParseDocument` | external/pugixml/pugixml.cpp:3524-3577 | ... and so does the parse of the whole document, with byte order mark and the demand for an element |
| `MarkupLoop.ParseTag` | external/pugixml/pugixml.cpp:3276-3385 | the attribute loop of a start tag |
| `MarkupLoop.ParseEnd` | external/pugixml/pugixml.cpp:3387-3419 | an end tag is accepted exactly if its name is that of the innermost open element |
| `MarkupLoop.ParseText` | external/pugixml/pugixml.cpp:3437-3493 | white space between tags is dropped or kept as the options say, other text becomes a node or is passed over |
| `PrintedLines.IndentationCopies` | external/pugixml/pugixml.cpp:4007-4045 | an indentation is one copy of its string for every level |
| `PrintedLines.NodeLine` | external/pugixml/pugixml.cpp:4255-4346 | in every format that is not raw, a node that neither is character data nor follows any begins a line of its own, with one copy of the indentation for every element around it |
| `PrintedLines.DocumentLine` | external/pugixml/pugixml.cpp:4255-4346 | the same in the printout of a document |
| `PrintedLines.EndLine` | external/pugixml/pugixml.cpp:4323-4339 | an end tag begins a line of its own, indented like its start tag, unless character data stands in front of it |
| `Spellings.EmptyElementSpelled` | external/pugixml/pugixml.cpp:4133-4153 | the tag of an element without children, in the three ways there are |
| `Spellings.AttributeSpelled` | external/pugixml/pugixml.cpp:4093-4119 | an attribute, on the line of its tag or indented on one of its own |
| `Spellings.LeavesSpelled` | external/pugixml/pugixml.cpp:4193-4246 | the markup around comments, instructions and document types |
| `MarkupRoundTrip.RawIsPrinted` | external/pugixml/pugixml.cpp:4255-4346 | in the raw format depth and pending line ends make no difference to what is written |
| `MarkupRoundTrip.LeadBlank` | external/pugixml/pugixml.cpp:4270-4281 | what stands in front of a tag is white space, and none in the raw format or behind character data |
| `MarkupRoundTrip.ItemRead` | external/pugixml/pugixml.cpp:3261-3497 | from where an item stands, in any format, the parser goes on behind it with exactly that item added |
| `MarkupRoundTrip.TextParses` | external/pugixml/pugixml.cpp:3261-3497 | wherever the elements of a document stand in a text, with any white space in tags, around equals signs and between tags, parsing gives the document |
| `MarkupRoundTrip.RoundTrip` | external/pugixml/pugixml.cpp:3261-3497 | main result: parsing the printout of a document gives the document back, with line ends in its character data normalised if asked for: the raw printout always, one with line ends and indentation if white space between tags is dropped |
| `MarkupRoundTrip.DocumentSurvives` | external/pugixml/pugixml.cpp:3261-3497 | a document comes back unchanged exactly if line ends are not converted or its character data has no carriage return |
| `ParserOptions.UnmarkedConverted` | external/pugixml/pugixml.cpp:2676-2725 | text in which nothing refers to anything is read as it stands, with line ends normalised if asked for |
| `ParserOptions.WhiteSpaceFlattened` | external/pugixml/pugixml.cpp:2801-2835 | where white space is made spaces, every white space becomes one and a carriage return and newline one together |
| `ParserOptions.LineEnds` | external/pugixml/pugixml.cpp:2699-2704 | each way to write a line end becomes one newline |
| `ParserOptions.NormalisedJoins` | external/pugixml/pugixml.cpp:2699-2704 | ... wherever it stands in a text |
| `ParserOptions.BlankAlone` | external/pugixml/pugixml.cpp:3437-3470 | white space alone in an element is kept with `parse_ws_pcdata` or `parse_ws_pcdata_single`, unless text is trimmed |
| `ParserOptions.BlankBeside` | external/pugixml/pugixml.cpp:3437-3470 | white space beside an element is kept with `parse_ws_pcdata` only |
| `ParserOptions.TextTrimmed` | external/pugixml/pugixml.cpp:2676-2725 | with `parse_trim_pcdata` the text of an element is what lies between its white space |
| `Spellings.MarkSkipped` | external/pugixml/pugixml.cpp:3506-3509 | what is passed over at the start of a text is the character U+FEFF |
| `Spellings.NameBytes` | external/pugixml/pugixml.cpp:1847-1887 | which bytes begin a name, go on in one, and are white space |
| `MarkupBuffer.ParseNul` | external/pugixml/pugixml.cpp:3524-3577 | the NUL that ends the buffer makes no difference to what is parsed |
| `MarkupBuffer.PrintAndParse` | external/pugixml/pugixml.cpp:4255-4346 | printing linked nodes, ending the printout with a NUL and parsing it in place gives the document back, up to line ends in character data |
| `IntegerTexts.WrittenIs` | external/pugixml/pugixml.cpp:4516-4552 | white space, a sign, `0x` and digits say the integer that is put together from them, whatever follows |
| `Integers.DecimalOverflowExact` | external/pugixml/pugixml.cpp:4556-4583 | digit count, leading digit and high bit of the wrapped sum tell exactly the numbers that do not fit |
| `Integers.HexOverflowExact` | external/pugixml/pugixml.cpp:4530-4555 | the digit count does for hexadecimal numbers |
| `Integers.StringToInteger` | external/pugixml/pugixml.cpp:4516-4596 | the result is the integer the text starts with, clamped to the range of the target type, for 16, 32 and 64 bits, although the sum wraps around |
| `Integers.IntegerToString` | external/pugixml/pugixml.cpp:4647-4665 | the digits, and the sign if there is one, end up at the end of the buffer, which always has room for them |
| `Integers.IntegerRoundTrip` | external/pugixml/pugixml.cpp:4516-4665 | reading undoes writing for every value of the target type |
| `DomLinks.AppendNode` | external/pugixml/pugixml.cpp:1236-1255 | appending to the cyclically linked list adds at the end |
| `DomLinks.PrependNode` | external/pugixml/pugixml.cpp:1257-1273 | prepending adds at the front |
| `DomLinks.InsertNodeAfter` | external/pugixml/pugixml.cpp:1275-1292 | inserting after a child adds right behind it |
| `DomLinks.InsertNodeBefore` | external/pugixml/pugixml.cpp:1294-1311 | inserting before a child adds right in front of it |
| `DomLinks.RemoveNode` | external/pugixml/pugixml.cpp:1313-1333 | removing takes out exactly that child and leaves it without links |
| `DomTree.AttachedValid` | external/pugixml/pugixml.cpp:6110-6176 | hanging a tree under a node that is not part of it leaves trees |
| `DomTree.DetachedValid` | external/pugixml/pugixml.cpp:1313-1333 | cutting a subtree out leaves trees |
| `DomTree.Store.NewDocument` | external/pugixml/pugixml.cpp:7112-7150 | a new document stands alone |
| `DomTree.Store.AllowMove` | external/pugixml/pugixml.cpp:4384-4406 | the upward walk permits a move exactly if the kinds do, both nodes are of one document, and the new parent is not the node or below it |
| `DomTree.Store.Move` | external/pugixml/pugixml.cpp:6110-6176 | every permitted move takes the node, with all below it, to the place asked for; the documents stay trees of the same nodes; a refused move, such as one to another document, changes nothing |
| `DomTree.Store.AddChild` | external/pugixml/pugixml.cpp:5934-6002 | a new node of a permitted kind stands at the place asked for, and nothing else changes |
| `DomTree.Store.RemoveChild` | external/pugixml/pugixml.cpp:6223-6234 | exactly the child and what is below it goes |
| `DomTree.AllowedIsHeld` | external/pugixml/pugixml.cpp:4375-4382 | what the refusals leave is what may stand in a tree: content under elements and documents, declarations and document types under documents only; every operation keeps every tree one of these |
| `DomTree.UnderRoot` | external/pugixml/pugixml.cpp:4384-4406 | every document is one tree: the way up from a node leads to the document it belongs to |
| `DomCopy.CopyShape` | external/pugixml/pugixml.cpp:4428-4443 | a copy that corresponds node by node has the shape of the original |
| `DomCopy.NodeCopyContents` | external/pugixml/pugixml.cpp:4428-4443 | name, value and attributes are those of the original |
| `DomCopy.CopyStep` | external/pugixml/pugixml.cpp:4463-4471 | a copied node stands under the copy of its parent, behind the copies of its earlier siblings |
| `DomCopy.SkipStep` | external/pugixml/pugixml.cpp:4462-4463 | the new copy is passed over where the walk meets it |
| `DomCopy.Advance` | external/pugixml/pugixml.cpp:4474-4489 | source and copy move in lockstep, back up to where copying started |
| `DomCopy.NodeCopyTree` | external/pugixml/pugixml.cpp:4445-4493 | the loop terminates and makes the new node a copy of the original as it was before the insertion, also where it stands inside the original |
| `DomCopy.PairsKept` | external/pugixml/pugixml.cpp:4428-4493 | a copy brings in no pair of parent and child of kinds that may not be |
| `DomCopy.InsertCopy` | external/pugixml/pugixml.cpp:6040-6108 | main result: the copy has the shape the original had, stands at the place asked for, and everything else is as it was; a refused copy changes nothing |
| `Allocator.Allocator.constructor` | external/pugixml/pugixml.cpp:7112-7150 | a document begins with a page that is full |
| `Allocator.Allocator.AllocateMemory` | external/pugixml/pugixml.cpp:546-557 | every block is in the page being filled, or in a new page behind it, or in front of it if the block is large; nothing else changes |
| `Allocator.Allocator.TakeInNewPage` | external/pugixml/pugixml.cpp:712-731 | a small block that does not fit opens a new page |
| `Allocator.Allocator.TakeOwnPage` | external/pugixml/pugixml.cpp:712-748 | a large block gets a page of its own |
| `Allocator.Allocator.DeallocateMemory` | external/pugixml/pugixml.cpp:598-640 | a page is unlinked exactly if its last live block is given back and it is not the one being filled; that one is reset |
| `Allocator.Allocator.BlocksApart` | external/pugixml/pugixml.cpp:546-640 | blocks lie in their page, within what is handed out of it, and do not overlap |
| `Allocator.Allocator.BytesConserved` | external/pugixml/pugixml.cpp:598-640 | live bytes and freed bytes are the bytes handed out; all are freed only in an empty page being filled |
| `Allocator.Allocator.AllocateString` | external/pugixml/pugixml.cpp:642-674 | a string gets a block with a header in front |
| `Allocator.StringSize` | external/pugixml/pugixml.cpp:648-652 | the size of a block is the least multiple of the alignment that has room for the string and its header |
| `Allocator.Allocator.HeaderTells` | external/pugixml/pugixml.cpp:642-692 | the two 16-bit fields of the header tell the page and the full size, zero meaning the whole page |
| `Allocator.Allocator.DeallocateString` | external/pugixml/pugixml.cpp:676-692 | from the address of a string alone exactly its block is given back |
| `Utf.PassesAgree` | external/pugixml/pugixml.cpp:2193-2216 | for every input the counting pass yields the number of units the writing pass writes |
| `Utf.CountersCount` | external/pugixml/pugixml.cpp:1467-1645 | each counter belongs to its writer, for UTF-8, UTF-16 and UTF-32 |
| `Utf.ProcessUtf8` | external/pugixml/pugixml.cpp:1647-1710 | the loop with blocks of four plain bytes, at any alignment, reports what decoding byte by byte reports; invalid bytes are passed over |
| `Utf.ProcessUtf16` | external/pugixml/pugixml.cpp:1712-1767 | the same for UTF-16 in either byte order; unpaired surrogates are passed over |
| `Utf.ProcessUtf32` | external/pugixml/pugixml.cpp:1757-1785 | the same for UTF-32 in either byte order |
| `Utf.ProcessLatin1` | external/pugixml/pugixml.cpp:1787-1801 | the same for Latin-1 |
| `Utf.BytesSwapped` | external/pugixml/pugixml.cpp:1457-1465 | swapping puts the bytes of a unit in the opposite order |
| `Utf.SwapsBack` | external/pugixml/pugixml.cpp:1457-1465 | swapping the bytes of a 16-bit or a 32-bit unit twice is swapping not at all |
| `Utf.ConvertGeneric` | external/pugixml/pugixml.cpp:2193-2216 | count, allocate, write: for each of the four decoders what is written fills exactly what was allocated |
| `Utf.ConvertLatin1` | external/pugixml/pugixml.cpp:2218-2262 | copying plain text in front gives what converting all of it gives |
| `Utf.EventsAppend` | external/pugixml/pugixml.cpp:1647-1710 | decoding can stop and go on after complete text |
| `Utf.OutputFits` | external/pugixml/pugixml.cpp:3895-3918 | no output encoding has more units than UTF-8 has bytes |
| `Utf.Utf8OneBack` | external/pugixml/pugixml.cpp:1489-1535 | decoding undoes encoding on every scalar value (RFC 3629, section 3) |
| `Utf.OneBack` | external/pugixml/pugixml.cpp:1537-1645 | the units of one code point in UTF-16, UTF-32 and Latin-1 are read as that code point; Latin-1 has a question mark for those it lacks |
| `Utf.Utf16Example` | external/pugixml/pugixml.cpp:1537-1580 | the surrogate pair of the example in RFC 2781, section 5 |
| `Utf.Utf16RoundTrip` | external/pugixml/pugixml.cpp:1712-1767 | converting well-formed UTF-16 to UTF-8 and back is the identity (RFC 2781, section 2) |
| `BufferedWriter.ValidLength` | external/pugixml/pugixml.cpp:3671-3685 | a chunk of complete text is cut only between code points |
| `BufferedWriter.Writer.Emit` | external/pugixml/pugixml.cpp:3722-3745 | a chunk is converted as a whole and fits the scratch area |
| `BufferedWriter.Writer.WriteDirect` | external/pugixml/pugixml.cpp:3747-3784 | large text leaves in whole-code-point chunks |
| `BufferedWriter.Writer.WriteString` | external/pugixml/pugixml.cpp:3801-3824 | copying into the rest of the buffer takes back what would cut a code point |
| `BufferedWriter.WriteAll` | external/pugixml/pugixml.cpp:3722-3893 | main result: however complete text is cut into writing calls, what arrives is the conversion of the whole |
| `Jsmn.ResumeEqualsOneShot` | itemz-daemon/include/jsmn.h:268-453 | running out of tokens and going on with a larger array equals running with it from the start |
| `Jsmn.MoreRoomSame` | itemz-daemon/include/jsmn.h:268-453 | a run that had room enough does not change with more room |
| `Jsmn.DryRunCounts` | itemz-daemon/include/jsmn.h:268-453 | the run without tokens returns the count of the run with them |
| `Jsmn.CountedRoomSuffices` | itemz-daemon/include/jsmn.h:268-453 | with the room the run without tokens counted, the run with them does not lack any |
| `Jsmn.StepKeeps` | itemz-daemon/include/jsmn.h:277-434 | every step keeps the token structure: starts in order, spans nested or apart, brackets of the right kind at both ends, the superior token open |
| `Jsmn.RunKeeps` | itemz-daemon/include/jsmn.h:268-453 | ... so every run does, and a successful one leaves no token open |
| `Jsmn.SuccessMeans` | itemz-daemon/include/jsmn.h:268-453 | on success the return value is the number of tokens, all closed, in bounds, in order of their starts, and nested or disjoint |
| `JsonTexts.StringExact` | itemz-daemon/include/jsmn.h:193-263 | a string is found, and where it ends, exactly if what stands there is the text of one: characters, escapes, and `\u` with four digits |
| `JsonTexts.PlainExact` | itemz-daemon/include/jsmn.h:138-171 | a primitive ends exactly at the first character that may follow one |
| `JsonRuns.ValueReads` | itemz-daemon/include/jsmn.h:268-453 | from the text of a value, with any white space between its parts, the run goes on behind it with exactly its tokens added |
| `JsonRuns.Tokenized` | itemz-daemon/include/jsmn.h:268-453 | main result: a run on the text of a value with room enough returns exactly the tokens of the value in preorder, with kind, start and end of each, and as size the number of members of a container and one for a key |
| `JsonRuns.RoomNeeded` | itemz-daemon/include/jsmn.h:268-453 | with less room it runs out of tokens, and without an array it counts them |
| `JsmnParser.Parser.AllocToken` | itemz-daemon/include/jsmn.h:109-122 | a token is taken exactly if there is room |
| `JsmnParser.Parser.ParsePrimitive` | itemz-daemon/include/jsmn.h:138-188 | one primitive, or an error with the position restored |
| `JsmnParser.Parser.ParseString` | itemz-daemon/include/jsmn.h:193-263 | one string, or an error with the position restored |
| `JsmnParser.Parser.Parse` | itemz-daemon/include/jsmn.h:268-453 | the loop over the in-place token array computes the run, with and without an array |
| `Md5Rounds.MixFIsRfc` | itemz-daemon/source/md5.cpp:51-52 | the daemon's F computes the F of RFC 1321 |
| `Md5Rounds.MixGIsRfc` | itemz-daemon/source/md5.cpp:53 | the daemon's G computes the G of RFC 1321 |
| `Md5Rounds.Transform` | itemz-daemon/source/md5.cpp:122-199 | the 64 unrolled steps on renamed registers compute the compression function of RFC 1321, section 3.4 |
| `Md5Vector.RotateLeftBits` | itemz-daemon/source/md5.cpp:60-63 | a rotation takes every bit as many places up, and those that fall out come in again at the bottom |
| `Md5Vector.WordOctets` | itemz-daemon/source/md5.cpp:87-91 | a word is read from its octets lowest first |
| `Md5Vector.AlphabetSteps` | itemz-daemon/source/md5.cpp:122-199 | the 64 operations on the block of the lower-case alphabet, one lemma each |
| `Md5Vector.AlphabetDigest` | itemz-daemon/source/md5.cpp:261-292 | the digest of the lower-case alphabet is that of the test suite in RFC 1321, appendix A.5 |
| `Md5.AbsorbMore` | itemz-daemon/source/md5.cpp:221-253 | going on with more text needs only the registers and the unfinished block |
| `Md5.CountMore` | itemz-daemon/source/md5.cpp:226-228 | the split counter counts bytes modulo 2^61, whatever the sizes of the pieces |
| `Md5.CountBits` | itemz-daemon/source/md5.cpp:280-282 | the two counter words are the two halves of the number of bits modulo 2^64 |
| `Md5.Context.Body` | itemz-daemon/source/md5.cpp:103-208 | the block loop absorbs exactly its blocks |
| `Md5.Context.Update` | itemz-daemon/source/md5.cpp:221-253 | feeding a piece of any size extends the message by it: registers, counters and buffered tail are those of the longer message |
| `Md5.Context.Final` | itemz-daemon/source/md5.cpp:261-292 | the result is the digest of the padded message as RFC 1321, section 3, defines it, whatever the pieces were |
| `Md5.HashReads` | itemzflow/source/utils.cpp:485-498 | the digest of a file depends only on its content, not on how the reads fall |

## Left out

- Optimizer rewrites assign fields of the expression tree in place; here they build a new expression, so sharing of nodes within an expression tree is not modelled.
- Floating point: numbers in XPath are an abstract type with exact operations given as parameters; `NodeSets.SumAnyOrder` needs addition to be commutative and associative.
- The leaf functions of XPath that only look at strings and numbers (`lang`, number formatting and parsing, `normalize-space` and the like) are parameters of the evaluator; their arguments and conversions are modelled.
- The namespace axis selects nothing in the engine; it is modelled for the evaluator but has no loop of its own.
- XPath query text is not lexed or parsed; expressions start as the trees that the parser builds, with the properties the parser gives them.
- Variables that hold node sets are taken to be free of duplicates.
- The hash of a node address is an arbitrary function; `Duplicates.HashInsert` holds for all of them.
- Allocation is taken to succeed everywhere; out-of-memory paths are not modelled.
- Attribute lists of nodes have the same links as sibling lists and are not modelled a second time.
- MarkupLoop.ParseTree: covers elements, attributes and character data; at a comment, CDATA section, processing instruction, declaration or document type it ends in the state `Other`, of which nothing is claimed.
- MarkupLoop.ParseDocument: the same; the buffer ends with a NUL, as loading a UTF-8 file makes it, so a last character that is dropped and put back is not modelled.
- MarkupRoundTrip.RoundTrip: is about documents of elements and character data, as far as the parser is modelled; printing is modelled for all kinds of nodes.
- MarkupRoundTrip.TextParses: every attribute value stands in the kind of quotes that the format has; a text that mixes the two is read by the same functions, but not a case of the theorem.
- JsonRuns.Tokenized: is about the texts of JSON values, with keys that may lack quotes; of the many other texts that the lenient tokenizer accepts only `Jsmn.SuccessMeans` speaks.
- OptimizerWork.OptimizeSimplifies: the `@name = $variable` and predicate classifications are covered by `OptimizerSound.OptimizeShape`, which shows that every classification is true, not that it is the best.
- BufferSharing.RunKeepsExclusive: a buffer that is parsed into the document has addresses that nothing else has, which is what the system's allocator sees to.
- Embedding character data in its element and white space normalisation of attributes (`parse_wnorm_attribute`) are not modelled.
- DomPrinter.NodeOutput: an element has no value of its own, which only embedded character data gives it.
- The 16-bit case of `Integers.StringToInteger` computes in 16 bits throughout, as on a machine whose `int` has 16 bits; the sources only use the 32- and 64-bit cases.
- Jsmn.Step: text positions are unbounded integers; the tokenizer's `int` positions limit it to texts below 2^31 characters. Strict mode and parent links are compile-time options that are off.
- Md5Rounds.Transform: reads the words of a block by value; the x86 variant reads them through a pointer cast, which is the same on little-endian machines.
- Sockets, files, user interface, database and installer code: no hard property.
- DomCopy.NodeCopyContents: strings are values, so that a copy shares them with its original until one of them changes is not modelled there; `BufferAddresses` has the flags that see to it.
- Allocator.Allocator.AllocateMemory: where the system has room for a new page is a parameter, and the first request of a document is small, as it is in the engine.
- Loading and saving through streams and files is not modelled; saving ends in `BufferedWriter.Writer`.
- TreeEdits.CompareEdited: edits are of one tree of values, and the linked nodes of `DomTree` are not tied to it; a new text is given by its length.
