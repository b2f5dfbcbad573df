# Verification of document codecs and editors

A Dafny 4.11 model of the parts of the repository whose correctness is an invariant over many functions,
with proofs. `dafny verify dfyconfig.toml` checks all of it.

Where the original changes state the model does, too: histories, documents, read contexts, arrays and visited
sets are updated by methods, and each method is proved equal to a specification function whose properties are
then proved as lemmas. Where the original computes a value the model is a function.

| files | what they model |
|---|---|
| `TextDiff`, `Canonical`, `HeaderGrammar`, `Decimal`, `History`, `HistoryRuns`, `HistoryEvidence` | the Thinking Space version history: diffs, canonical texts, recording, pruning, collecting, the integrity checker, every run of records, and what the newest id says about a history |
| `Identity`, `IdentityMatch`, `XmlTree`, `XmlEditor`, `XmlRuns`, `XmlPlacement`, `XmlOutcomes` | the source-preserving XML editor: parsed trees, range edits, the transfer of identities, every run of edits, where things are put, and when an edit succeeds |
| `HtmlHierarchy`, `HtmlEditor`, `HtmlPlacement`, `HtmlOutcomes` | the same for HTML blocks, whose ranges may cross |
| `OdfModel`, `OdfReader` | the OpenDocument flow reader with its expansion budget |
| `OdfOutline`, `OdfNumbering`, `OdfTables`, `OdfBodies`, `OdfLimits` | what it reads, by position: lists, identifiers, rows and columns, whole texts, and the limits on them |
| `OdfStyles`, `OdfText` | style inheritance, and whitespace |
| `OdfLists`, `OdfWriter`, `OdfDocument` | numbered paragraphs as nested lists, text and runs, whole bodies, written and read back |
| `OdfPlan`, `OdfDeclarations`, `OdfValidity`, `OdfRoundTrip` | the styles planned for a whole document and declared in a file, and documents validated, written and read back |
| `FormSearch` | search, removal and fresh ids over shared and cyclic form content |
| `Unicode`, `XmlBytes`, `XmlEncodings`, `Base64`, `Base64Bits`, `Markup`, `MarkupForm` | strict UTF-8, UTF-16 and UTF-32, canonical Base64, the authorship comment |
| `PdfReal`, `PdfContent`, `PdfTokens`, `PdfElements`, `PdfOperators`, `PdfObjects` | PDF numbers, names, strings and instructions as text and read back, and the grouping of instructions into elements |

## What stands for the parts outside the model

- SHA-256 is any function from strings to 64 characters, with the assumption that the payloads that one run
  hashes, or that two compared histories hash, do not collide. No injectivity is assumed beyond those.
- The markup parser is any function from a text to a tree; what it reports is checked as the original checks
  it. Some results (`XmlRuns.NoEditCrosses`, `XmlPlacement.CreatedIsPlaced`, `XmlOutcomes.SucceedsExactlyIf`) also
  assume that it puts tags around all content.
- The HTML block tracker is any function from a text to ranges.
- XML elements of OpenDocument files are an algebraic type; a number in an attribute is absent, unreadable or
  given. Writing a paragraph is any function to such an element in `OdfLists` and `OdfDocument`; `OdfWriter` and
  `OdfPlan` model `writeParagraph` itself, and `OdfRoundTrip` puts it in.
- A style declaration is a name and what its attributes amount to; names of styles and fonts are strings of
  characters and come back from XML as they were written.
- The search for a Latin-1 declaration, the serialised form of an authorship record, the clock and
  `std::to_chars` are parameters.
- `std::string` is a Dafny string in the history, editors and PDF files and a sequence of bytes where UTF-8
  matters. Lengths are unbounded unless the original tests them; counters and ids that the original lets wrap
  or tests against their maximum do so in the model.

## Where the code does not do what one would expect

- Nothing checks the boundary of a pruned history by itself. The id of its oldest version determines that version only
  together with the lengths of two other ids (`HistoryEvidence.NewestIdStandsForHistory`,
  `HistoryEvidence.BoundaryLengthCounts`).
- An inline image ends at its data. If the parser reports the `EI` behind it as an operator, that becomes an element of
  unknown kind, although docs/ARCHITECTURE.md:62 counts it to the image (`PdfObjects.PageBecomesItsObjects`). Text
  state operators outside a text object are of unknown kind, too.
- `nextElementId` wraps to 0 when the greatest 64-bit id is in use (`FormSearch.NextElementId`).
- The validator of continuations accepts sequences whose last flag the writer then loses
  (`OdfLists.AcceptedButNotOpen`); `OdfLists.FlagsRoundTrip` says which sequences survive.
- The names of generated styles are not checked against those in use. An automatically aligned paragraph whose
  style has a name generated for another takes over that one's alignment and style (`OdfPlan.NamesClash`);
  one whose style is called `IGDBase`, or `IGDP` and other digits, loses its style name
  (`OdfPlan.StyleRoundTrip`).
- The limits of 1,000,000 items and of the configured characters hold for every office:text, not for a document with
  several of them (`OdfReader.OneTextIsLimited`, `OdfReader.OneTextHasItsCharacters`), and list identifiers start again in each (`OdfReader.IdentifiersStartAgain`).
- East Asian font names with blanks or quotation marks around them, sizes with more than four decimals, and
  colours in lower case change in a round trip (`OdfPlan.RunsKept`).
- A text with more than a million spaces in a row can be written but not read, so that the writer's own check
  refuses it (`OdfWriter.TooManySpaces`).
- Explicitly aligned paragraphs whose styles are called like generated ones can chain those: a valid document of 129
  such paragraphs is refused by the writer's own check, because its reader stops at 129 inherited styles
  (`OdfRoundTrip.LinkedDocumentsFit`; `OdfPlan.DocumentNests` says which documents are refused).

## Model

| member | source | states |
|---|---|---|
| HistoryRuns.EveryRunVerifies | src/ThinkingSpace/ThinkingSpaceDocument.cpp:309-365 | After any list of `record` calls on an empty history, no two hashed payloads colliding: the checker passes, the kept versions are the newest (at most 100) of all issued ones, pruned plus kept is the number issued, the stored snapshots and diffs are exactly those that a kept version refers to, and no version id was ever issued twice, not even a pruned one. |
| HistoryRuns.EveryRunReplays | src/ThinkingSpace/ThinkingSpaceDocument.cpp:281-307 | After any such run, folding the kept diffs from the empty snapshot, or from the first kept one, rebuilds for every kept version exactly the metadata and body that it was recorded with. |
| HistoryRuns.VerifiedReplays | src/ThinkingSpace/ThinkingSpaceDocument.cpp:433-508 | For any history at all: if the checker passes, the fold never fails and gives every stored snapshot exactly. |
| HistoryRuns.CheckedDiffApplies | src/ThinkingSpace/ThinkingSpaceDocument.cpp:281-307 | A diff that the checker accepts between two genuine snapshots is one that `apply` takes from the first to the second. |
| HistoryEvidence.AppliesExactly | src/ThinkingSpace/ThinkingSpaceDocument.cpp:281-307 | A diff applies exactly to genuine snapshots of the content with the id of its base from which its texts lead to a content with the id of its target. |
| HistoryEvidence.OneBaseOnly | src/ThinkingSpace/ThinkingSpaceDocument.cpp:281-307 | Without a collision a diff applies to one content only. |
| HistoryEvidence.NewestIdStandsForHistory | src/ThinkingSpace/ThinkingSpaceDocument.cpp:433-508 | Two histories pass the check, their payloads do not collide and their newest versions have one id: then they agree on every version with its label, time, snapshot and diff, as far back as the shorter one goes; on its oldest version if and only if the ids of that version's parent and of the base of its diff have the same lengths in both. |
| HistoryEvidence.SameNewestIdSameHistory | src/ThinkingSpace/ThinkingSpaceDocument.cpp:433-508 | With equally many versions, under the same condition and only then, the two are equal in everything but the number of pruned versions. |
| HistoryEvidence.WholeHistoryIsDetermined | src/ThinkingSpace/ThinkingSpaceDocument.cpp:458-461 | If nothing was pruned from one of them, they are equal without any further condition. |
| HistoryEvidence.BoundaryLengthCounts | src/ThinkingSpace/ThinkingSpaceDocument.cpp:454-457 | The condition is needed: two pruned histories with boundaries of different lengths pass, hash the same payloads and differ in a label. |
| HistoryEvidence.EveryRunKeepsItsCalls | src/ThinkingSpace/ThinkingSpaceDocument.cpp:309-365 | Every kept version of a run carries the label and the time, or the clock's answer, of its own call, and replaying gives the content of that call; no call but the oldest ones is missing. |
| HistoryRuns.StepKeepsGood | src/ThinkingSpace/ThinkingSpaceDocument.cpp:309-365 | One call keeps the run invariant; it issues one version unless 100 are kept and the pruned counter is at its maximum. |
| HistoryRuns.IssuedIdsDiffer | src/ThinkingSpace/ThinkingSpaceDocument.cpp:209-228 | Two versions of a run never share an id: equal ids would make equal payloads, hence equal parents, back to the first version. |
| HistoryRuns.SnapshotIdsIdentifyContent | src/ThinkingSpace/ThinkingSpaceDocument.cpp:145-166 | Without a collision, a snapshot id determines metadata and body. |
| HistoryRuns.DiffIdsIdentifyDiff | src/ThinkingSpace/ThinkingSpaceDocument.cpp:180-207 | Without a collision, a diff id determines the diff. |
| HistoryRuns.GoodIsVerified | src/ThinkingSpace/ThinkingSpaceDocument.cpp:433-508 | The run invariant implies everything the checker demands. |
| HistoryRuns.PrunedIsGood | src/ThinkingSpace/ThinkingSpaceDocument.cpp:510-536 | Pruning and collecting restore the invariant: nothing referenced is lost, nothing unreferenced stays. |
| History.VersionHistory.Record | src/ThinkingSpace/ThinkingSpaceDocument.cpp:309-365 | A call leaves the history in the state that the specification gives and returns its newest version, with the label and the time that it was given, or throws one of two errors and changes nothing. |
| History.VersionHistory.Store | src/ThinkingSpace/ThinkingSpaceDocument.cpp:323-362 | The new snapshot, diff and version, with label and time, are built from the arguments and added; objects already stored under their id stay. |
| History.VersionHistory.PruneOldestVersions | src/ThinkingSpace/ThinkingSpaceDocument.cpp:510-522 | Versions beyond 100 go, oldest first; the counter, the boundary parent and the objects follow. |
| History.VersionHistory.CollectUnreferencedObjects | src/ThinkingSpace/ThinkingSpaceDocument.cpp:524-536 | Exactly the objects without a referring version go. |
| History.VersionHistory.VerifyIntegrity | src/ThinkingSpace/ThinkingSpaceDocument.cpp:433-508 | The checker returns true exactly for the histories in which every version, snapshot and diff satisfies its conditions. `HistoryEvidence.SameNewestIdSameHistory` says what they leave open. |
| History.VersionHistory.CheckVersion | src/ThinkingSpace/ThinkingSpaceDocument.cpp:443-488 | The body of the checker loop decides exactly the condition on one version. What the hash test rules out says `HistoryEvidence.NewestIdStandsForHistory`. |
| TextDiff.MakeTextDiff | src/ThinkingSpace/ThinkingSpaceDocument.cpp:108-131 | The kept parts are the longest common prefix and then the longest common suffix of the rest, they never overlap, and the diff is empty exactly for equal texts. |
| TextDiff.ComputeTextDiff | src/ThinkingSpace/ThinkingSpaceDocument.cpp:108-131 | The two scanning loops compute that diff. |
| TextDiff.ApplyMakeTextDiff | src/ThinkingSpace/ThinkingSpaceDocument.cpp:251-274 | Applying a diff to the text it was made from gives the text it was made for. |
| TextDiff.AppliesExactlyToShape | src/ThinkingSpace/ThinkingSpaceDocument.cpp:251-274 | A diff applies to exactly the texts prefix + removed + suffix with the recorded lengths, and changes only the middle. |
| Canonical.HeaderRoundTrip | src/ThinkingSpace/ThinkingSpaceDocument.cpp:68-106 | Parsing a canonical header gives back the metadata, whatever bytes names and values hold. |
| Canonical.PrintHeader | src/ThinkingSpace/ThinkingSpaceDocument.cpp:35-46 | The printing loop writes the count and then every entry in byte order of its name. |
| HeaderGrammar.AcceptsExactlyHeaders | src/ThinkingSpace/ThinkingSpaceDocument.cpp:68-106 | A text is accepted if and only if it is a count, a line feed and that many entries with right sizes, leading zeros allowed, no name twice and nothing else; the result holds exactly the entries. |
| Canonical.ParseHeader | src/ThinkingSpace/ThinkingSpaceDocument.cpp:68-106 | The parsing loop refuses overlong counts, bad numbers, missing line ends, repeated names and trailing bytes, and reads the rest as the specification does. |
| Canonical.SortedKeys | src/ThinkingSpace/ThinkingSpaceDocument.cpp:40-45 | The iteration order of the metadata map: every name once, strictly ascending. |
| Canonical.CanonicalHeaderIsInjective | src/ThinkingSpace/ThinkingSpaceDocument.cpp:35-46 | Different metadata have different canonical headers. |
| Canonical.CanonicalTextDiffIsInjective | src/ThinkingSpace/ThinkingSpaceDocument.cpp:133-143 | Different text diffs have different canonical texts. |
| Canonical.CanonicalTreeIsInjective | src/ThinkingSpace/ThinkingSpaceDocument.cpp:145-166 | With ids of one length, a tree payload determines both object ids. |
| Canonical.CanonicalDiffIsInjective | src/ThinkingSpace/ThinkingSpaceDocument.cpp:180-193 | With ids of one length, a diff payload determines everything but the id. |
| Canonical.CanonicalVersionIsInjective | src/ThinkingSpace/ThinkingSpaceDocument.cpp:209-228 | With ids of one length, a commit payload determines everything but the id; a missing parent is never taken for a present one. |
| Canonical.LengthPrefixedCancels | src/ThinkingSpace/ThinkingSpaceDocument.cpp:16-21 | A length-prefixed string is a prefix code. |
| XmlRuns.EditPreservesIdentity | src/Xml/XmlTreeEditor.cpp:271-311 | After any committed create, update or remove, every node not inside the edited range is there under its id and name: apart from the range with its text unchanged, around it with exactly the replacement spliced in. |
| XmlRuns.NamedNodeIsPresent | src/Xml/XmlTreeEditor.cpp:102-207 | After create and update the node of that id has exactly the trimmed fragment as its text; after remove no node has the id. |
| XmlPlacement.CreatedIsPlaced | src/Xml/XmlTreeEditor.cpp:102-170 | With tags around all content, after `create` under an element: the element keeps its id, place and, unless it was self-closing, its name; its text is the old opening tag, the old content, the trimmed fragment and the end tag, a self-closing tag being opened; the new element lies in it there. Every other element is there under its id and name: around the new one if it was around the parent, before it if it ended before the parent's content did, else behind it. |
| XmlPlacement.CreatedUnderText | src/Xml/XmlTreeEditor.cpp:102-170 | The text of the document is the old one with that element in place of the old one. |
| XmlPlacement.OtherTexts | src/Xml/XmlTreeEditor.cpp:113-125 | Without a parent the text of the document is the old one followed by the fragment, and there was no element; after `update` it is the old one with the fragment in place of the element; after `remove`, without the element. |
| XmlPlacement.TrimmedIs | src/Xml/XmlTreeEditor.cpp:15-30 | What is trimmed from a fragment are the blanks at both ends, all of them and nothing else. |
| XmlOutcomes.SucceedsExactlyIf | src/Xml/XmlTreeEditor.cpp:102-207 | With tags around all content, an operation succeeds if and only if there is nothing to do or its edit can be committed: the element exists, the fragment is one element, the new text parses, and the parse has an element for the new one and, at the new place and of the same name, for every element outside the edit; ids and revisions suffice. |
| XmlRuns.EveryRunKeepsIds | src/Xml/XmlTreeEditor.cpp:225-357 | Over any run of operations, failed ones included, ids stay different, non-zero and below the counter, links stay those of a fresh parse, no vanished id returns, and the revision counts the committed changes. |
| XmlRuns.VanishedNeverReturns | src/Xml/XmlTreeEditor.cpp:57-63 | An id that was in use and has vanished stays vanished over any later run. |
| XmlRuns.OperationIsSound | src/Xml/XmlTreeEditor.cpp:225-357 | An operation that succeeds either has nothing to do or commits exactly its planned edit. |
| XmlRuns.InternalChecksNeverFire | src/Xml/XmlTreeEditor.cpp:313-346 | On a sound document the checks for bounds, for inconsistent allocation, for lost parents or children and for repeated ids never fail. |
| XmlRuns.NoEditCrosses | src/Xml/XmlTreeEditor.cpp:294-298 | If the parser puts tags around all content, no operation fails for crossing a node. |
| XmlRuns.FromXmlIsOk | src/Xml/XmlTreeDocument.cpp:361-373 | A document can be made of exactly the texts that parse to one valid root element that begins at the first character, with ids to spare; its ids count from one in document order, and it satisfies the document invariant. |
| XmlRuns.EmptyIsOk | src/Xml/XmlTreeDocument.h:109-109 | So does the default-constructed document, from which runs may start as well. |
| XmlEditor.XmlTreeDocument.Create | src/Xml/XmlTreeEditor.cpp:102-170 | The method returns the next id and leaves the document that the specification gives, or throws its error and changes nothing. Where the element then is says `XmlPlacement.CreatedIsPlaced`. |
| XmlEditor.XmlTreeDocument.Update | src/Xml/XmlTreeEditor.cpp:177-195 | The same for update; an unchanged text is no change. |
| XmlEditor.XmlTreeDocument.Remove | src/Xml/XmlTreeEditor.cpp:197-207 | The same for remove; it returns whether there was such a node. |
| XmlEditor.XmlTreeDocument.ReplaceRangeInPlace | src/Xml/XmlTreeEditor.cpp:225-357 | All fields are written together after everything that can fail. |
| XmlEditor.XmlTreeDocument.Relink | src/Xml/XmlTreeEditor.cpp:319-339 | The loop that translates temporary parent and child ids to final ones. |
| XmlTree.AppendNode | src/Xml/XmlTreeDocument.cpp:440-491 | The recursive walk pushes the nodes of a tree in preorder with consecutive ids. |
| XmlTree.AppendChildren | src/Xml/XmlTreeDocument.cpp:483-489 | Its loop over the children collects exactly their ids. |
| XmlTree.FlattenLinked | src/Xml/XmlTreeDocument.cpp:440-491 | Parent and child links of parsed nodes are mutual, and parents come first. |
| XmlTree.FlattenSlices | src/Xml/XmlTreeDocument.cpp:460-481 | Every parsed node holds exactly its slices of the source. |
| XmlTree.FlattenLaminar | src/Xml/XmlTreeDocument.cpp:167-192 | Valid trees with tags around content give nodes that nest or lie apart. |
| Identity.TransferIsSound | src/Xml/XmlTreeEditor.cpp:254-317 | For any two lists of elements and sound bindings: ids stay different and spent, bound elements and all elements outside the edit keep theirs at the moved range, and every other id is fresh. |
| Identity.TransferErrors | src/Xml/XmlTreeEditor.cpp:254-317 | A transfer fails only for a missing element, a crossing one, or exhausted ids. |
| IdentityMatch.TransferSucceeds | src/Xml/XmlTreeEditor.cpp:254-317 | If no two elements have the same place, the transfer succeeds if and only if the new parse has an element for every binding and every kept element, nothing crosses the edit, and there are ids for the rest: taking the first match never takes one that is needed later. |
| Identity.TransferIds | src/Xml/XmlTreeEditor.cpp:255-317 | The loops compute that transfer. |
| Identity.FateIsMovedOutside | src/Xml/XmlTreeEditor.cpp:277-298 | Exactly the elements inside the edited range are dropped; exactly those before, after or around it are moved. |
| Identity.TransferNeverCrosses | src/Xml/XmlTreeEditor.cpp:294-298 | Without a crossing element no transfer fails for one. |
| HtmlEditor.OperationIsSound | src/Html/HtmlBlockEditor.cpp:217-318 | An operation that succeeds changes nothing or commits one edit: every block outside it keeps id and tag at the moved range, the given root is where its text is, no id from inside the edited range but that of the root is left, links are rebuilt from the ranges, no spent id comes back. Crossing ranges are allowed. |
| HtmlEditor.NamedBlockIsPresent | src/Html/HtmlBlockEditor.cpp:111-171 | After create and update have changed the text, the block of that id spans exactly the serialised fragment; remove of a block always commits, and then no block has the id. |
| HtmlPlacement.CreatedIsPlaced | src/Html/HtmlBlockEditor.cpp:111-132 | After `create` the text has the block's text at the end of the parent's content, or at its end without a parent; there the new block is; every other block is there under its id and tag, in front of that place, behind it, or grown around it. |
| HtmlPlacement.OtherTexts | src/Html/HtmlBlockEditor.cpp:139-171 | After `update` the text has the new block's text in place of the block; after `remove` it lacks the block. |
| HtmlOutcomes.SucceedsExactlyIf | src/Html/HtmlBlockEditor.cpp:111-318 | If no two blocks have the same range and the tracker gives no empty text, an operation succeeds if and only if there is nothing to do or its edit can be committed. |
| HtmlEditor.EveryRunKeepsIds | src/Html/HtmlBlockEditor.cpp:217-318 | Over any run, failed operations included, ids stay different, non-zero and below the counter, links stay those of the ranges, and the revision counts the changes. |
| HtmlEditor.VanishedNeverReturns | src/Html/HtmlBlockEditor.cpp:66-72 | A vanished id never returns. |
| HtmlEditor.AllocationIsConsistent | src/Html/HtmlBlockEditor.cpp:244-249 | No operation fails for an inconsistent allocation. |
| HtmlEditor.FromHtmlIsOk | src/Html/HtmlBlockDocument.cpp:180-196 | A document can be made of exactly the texts that parse into blocks whose ids leave one to spare; the blocks keep their ids, the next id is the one after the greatest, and with different non-zero ids the invariant holds. |
| HtmlEditor.EmptyIsOk | src/Html/HtmlBlockDocument.h:78-78 | So does the default-constructed document. |
| HtmlEditor.HtmlBlockDocument.Create | src/Html/HtmlBlockEditor.cpp:111-132 | The method returns the next id and leaves the specified document, or throws and changes nothing. Where the block then is says `HtmlPlacement.CreatedIsPlaced`. |
| HtmlEditor.HtmlBlockDocument.Update | src/Html/HtmlBlockEditor.cpp:139-152 | The same for update. |
| HtmlEditor.HtmlBlockDocument.Remove | src/Html/HtmlBlockEditor.cpp:154-171 | The same for remove, which parses the shortened text first. |
| HtmlEditor.HtmlBlockDocument.TopLevelBlock | src/Html/HtmlBlockEditor.cpp:173-215 | The nested search finds the one uncontained block, which must be the whole trimmed fragment. |
| HtmlEditor.HtmlBlockDocument.ReplaceRangeInPlace | src/Html/HtmlBlockEditor.cpp:217-318 | All fields are written together after everything that can fail. |
| HtmlHierarchy.ParentIsLastContainer | src/Html/HtmlBlockDocument.cpp:266-282 | For any set of ranges: a block has a parent exactly if another range holds its range and is longer; the parent is the one of these that begins last, the shortest of those that begin there, and the first of those. |
| HtmlHierarchy.ParentIsMinimalContainer | src/Html/HtmlBlockDocument.cpp:266-282 | So no other range lies between a block and its parent, even where ranges cross. |
| HtmlHierarchy.ParentsAreAcyclic | src/Html/HtmlBlockDocument.cpp:266-282 | Following parents never returns to a block. |
| HtmlHierarchy.DepthIsChainLength | src/Html/HtmlBlockDocument.cpp:290-306 | The depth is the number of parent links up to a root. |
| HtmlHierarchy.ChildListsAgreeWithParents | src/Html/HtmlBlockDocument.cpp:308-321 | Child lists, parent ids and the root list say the same, and the roots are the blocks that no longer range holds. |
| HtmlHierarchy.ChildListsAreInSourceOrder | src/Html/HtmlBlockDocument.cpp:310-320 | Child lists are in source order. |
| HtmlHierarchy.RebuildIsIdempotent | src/Html/HtmlBlockDocument.cpp:263-322 | Rebuilding a rebuilt hierarchy changes nothing. |
| HtmlHierarchy.RebuildHierarchy | src/Html/HtmlBlockDocument.cpp:263-322 | The loops write exactly that hierarchy into the blocks in place and return the roots. |
| HtmlHierarchy.ResolveDepth | src/Html/HtmlBlockDocument.cpp:292-306 | The memoised recursion ends and fills in right depths only. |
| HtmlHierarchy.FindParents | src/Html/HtmlBlockDocument.cpp:266-282 | The double loop picks the specified parent for every block. |
| OdfRoundTrip.WriteDocument | src/Word/Private/OdfTextCodec.cpp:3399-3460 | The writer up to its commit, which validates the document, writes it and reads it back: it succeeds exactly when the document is valid, its texts are UTF-8 of XML characters, no run of spaces is longer than a million, its explicitly aligned styles form no chain of 129 generated ones that goes on, and what is kept of it costs at most 1,000,000 items and the configured characters. Then what a reader gets is the document: blocks, rows and cells in order, paragraphs as `OdfPlan.ParagraphRoundTrip` says, lists as `OdfDocument.BodyRoundTrip` says. |
| OdfRoundTrip.DocumentRoundTrip | src/Word/Private/OdfTextCodec.cpp:3439-3452 | The same as a statement about the written elements, for every valid document with writable texts: they can be read if and only if the runs of spaces, the chain of styles and the cost are within their limits, all three computed from the document that is written. |
| OdfRoundTrip.ReadDocument | src/Word/Private/OdfTextCodec.cpp:3185-3199 | A package or a flat document is read with the styles that its parts declare, into the same model; there is a result exactly when nothing is over a limit, the nesting of those styles included. |
| OdfRoundTrip.LinkedDocumentsFit | src/Word/Private/OdfTextCodec.cpp:3438-3450 | Of n centred paragraphs without text, each with the name generated for the next one as its style, up to 128 pass the check after writing and 129 or more do not, although all are valid. |
| OdfPlan.DocumentNests | src/Word/Private/OdfTextCodec.cpp:766-772 | Reading a written document reports no style depth error if and only if there are no 129 different ones among its explicitly aligned styles such that each has the name generated for the next one as its parent and the last one has a parent too. |
| OdfPlan.TooDeepIsChain | src/Word/Private/OdfTextCodec.cpp:2452-2461 | For each name alone: resolving it in a written document reports the error exactly when such a chain begins with the style of that name. |
| OdfRoundTrip.ValidateDocument | src/Word/Private/OdfTextCodec.cpp:2074-2130 | The loop, which collects paragraphs until a table comes, accepts exactly the documents with valid paragraphs and continuations and without empty tables or rows. |
| OdfValidity.AcceptedExactlyIf | src/Word/Private/OdfTextCodec.cpp:1987-2130 | A document is accepted if and only if its paragraphs, in cells or not, have levels 0 to 8, list identifiers from 0 on and runs with sizes from 0 on and six-digit colours, no table is without rows, no row without cells, and every continuation in the body or in a cell has an item of its level before it in its list with no item above that level since. |
| OdfDeclarations.EveryStyleIsDeclared | src/Word/Private/OdfTextCodec.cpp:2343-2382 | A written document declares the style of every one of its paragraphs and of every span that names one. |
| OdfDeclarations.EveryFontIsDeclared | src/Word/Private/OdfTextCodec.cpp:2330-2341 | It declares a font face for every font that its styles name. |
| OdfDeclarations.ListStylesDiffer | src/Word/Private/OdfTextCodec.cpp:2359-2382 | Different lists have differently named list styles. |
| OdfDeclarations.PointsAreNearest | src/Word/Private/OdfTextCodec.cpp:2313-2328 | A size comes back as the nearest one with four decimals. |
| OdfDeclarations.TheLastDeclarationCounts | src/Word/Private/OdfTextCodec.cpp:666-741 | For any declarations: a name in a family means the last style declared under it in the part, if any, else that of the parts before; its fonts are the faces of the part, else those of the other part, else the names themselves; nameless styles count for nothing. |
| OdfRoundTrip.BackRunsCost | src/Word/Private/OdfTextCodec.cpp:1011-1023 | What comes back of a run costs one item and its octets with line feeds for line endings, or nothing without text. |
| OdfPlan.StyleRoundTrip | src/Word/Private/OdfTextCodec.cpp:2243-2256 | For every paragraph of a document: its alignment comes back if and only if it has one of its own or its style has none of the names IGDP1 to IGDPn that are generated for the n explicitly aligned styles; its style comes back if and only if it has an alignment of its own, or its style name is not reserved, or the name is the one generated for that very style. |
| OdfPlan.NamesClash | src/Word/Private/OdfTextCodec.cpp:2193-2201 | A paragraph with style IGDP1 before an explicitly centred one comes back centred, under the style of the other. |
| OdfPlan.ParagraphRoundTrip | src/Word/Private/OdfTextCodec.cpp:1284-1329 | Every paragraph of a document, written under the plan for the whole document and read with the declared styles, comes back with the style and alignment in effect under its name and with its kept runs. |
| OdfPlan.ParagraphIsKept | src/Word/Private/OdfTextCodec.cpp:2243-2256 | A paragraph comes back as it was but for its numbering if and only if its runs do and it is explicitly aligned or its style name is not reserved. |
| OdfPlan.RunsKept | src/Word/Private/OdfTextCodec.cpp:2555-2563 | Runs come back as they were if and only if each has text, no carriage return, an East Asian font without blanks or quotation marks around it, a size of four decimals, and a colour in capitals. |
| OdfPlan.PropertiesRoundTrip | src/Word/Private/OdfTextCodec.cpp:2384-2427 | The style declared for the properties of a run gives them back with the East Asian font stripped, the size rounded and the colour in capitals. |
| OdfPlan.PlanIsExact | src/Word/Private/OdfTextCodec.cpp:2224-2241 | The plan of a document lists every explicitly aligned style, every property set in use, every style name, every list and every font, each once and no other. |
| OdfPlan.PlanFollowsFirstUse | src/Word/Private/OdfTextCodec.cpp:2193-2201 | Automatic paragraph styles are numbered in the order of first use. |
| OdfPlan.MakeWritePlan | src/Word/Private/OdfTextCodec.cpp:2224-2241 | The nested loops over blocks, rows, cells and paragraphs build that plan. |
| OdfPlan.WritePlan.CollectParagraph | src/Word/Private/OdfTextCodec.cpp:2188-2222 | One paragraph adds its style, its numbering and its runs; known styles are not added again. |
| OdfPlan.WritePlan.CollectRun | src/Word/Private/OdfTextCodec.cpp:2205-2221 | One run adds its fonts and, unless plain or known, its properties under the next name. |
| OdfPlan.WritePlan.ParagraphStyleName | src/Word/Private/OdfTextCodec.cpp:2243-2256 | The lookup gives the generated name, or the name of the style, or the base style. |
| OdfPlan.ParagraphStyleUnder | src/Word/Private/OdfTextCodec.cpp:2343-2382 | Under any name the reader finds the automatic style of that number, else the named style, else nothing: an automatic style replaces a named one. |
| OdfPlan.ReadWrittenStyles | src/Word/Private/OdfTextCodec.cpp:3185-3199 | Reading styles.xml and then content.xml gives the same map as reading a flat document. |
| OdfPlan.ParseStyles | src/Word/Private/OdfTextCodec.cpp:666-741 | The loop declares the styles of one part, later ones replacing earlier ones, resolves their fonts and adds them to those of the parts before. |
| OdfDocument.BodyRoundTrip | src/Word/Private/OdfTextCodec.cpp:2683-2720 | A body written and read back has the same blocks, rows, cells and paragraphs in order; every numbered paragraph keeps its level; two paragraphs share a list exactly when all from the one to the other did before; a continuation stays one exactly when an item of its level is open in its list. |
| OdfDocument.WrittenBodyFits | src/Word/Private/OdfTextCodec.cpp:1011-1023 | A written body passes the nesting and repetition limits exactly when each of its paragraphs does, and the nesting of styles is reported exactly when it is for one of its paragraphs. |
| OdfDocument.WriteBody | src/Word/Private/OdfTextCodec.cpp:2683-2720 | The loop writes the specified elements: paragraphs, one list for each maximal stretch of one identifier, tables. |
| OdfDocument.WriteTable | src/Word/Private/OdfTextCodec.cpp:2646-2681 | The loops write every row and cell; an empty cell gets an empty paragraph. |
| OdfLists.SequenceRoundTrip | src/Word/Private/OdfTextCodec.cpp:2623-2644 | The list round trip for one sequence of paragraphs: levels; shared lists, for any two numbered paragraphs; and flags, for every sequence of levels and flags. |
| OdfLists.FlagsRoundTrip | src/Word/Private/OdfTextCodec.cpp:1525-1533 | All continuation flags survive if and only if every continuation has an earlier paragraph of its level in its list with only deeper ones between. |
| OdfLists.ItemsBack | src/Word/Private/OdfTextCodec.cpp:2567-2612 | Reading the items that `writeListLevel` writes gives the paragraphs that it consumed, in order. |
| OdfLists.WriteListLevel | src/Word/Private/OdfTextCodec.cpp:2567-2612 | The writer terminates (remaining paragraphs, then nine minus level), consumes every paragraph of at least its level, and writes the specified list. |
| OdfLists.WriteListItem | src/Word/Private/OdfTextCodec.cpp:2588-2610 | One item takes a paragraph of its level with the deeper lists and continuations after it, or a deeper list alone. |
| OdfLists.WriteParagraphSequence | src/Word/Private/OdfTextCodec.cpp:2623-2644 | The loop writes one list for each maximal stretch of one identifier. |
| OdfLists.ValidateNumberingContinuations | src/Word/Private/OdfTextCodec.cpp:2034-2072 | The validator accepts exactly the sequences in which every continuation in range follows an item of its level in its list with no item of a lower level since. |
| OdfLists.OpenIsAccepted | src/Word/Private/OdfTextCodec.cpp:2034-2072 | Whatever survives the round trip is accepted. |
| OdfLists.AcceptedButNotOpen | src/Word/Private/OdfTextCodec.cpp:2034-2072 | Not the other way round: item 0, item 1, continuation 0, continuation 1 is accepted and loses its last flag. |
| OdfReader.ParseBody | src/Word/Private/OdfTextCodec.cpp:1755-1791 | Reading a body succeeds exactly when it has an office:text and in each of them nesting, repetition counts and the inheritance of every style that is resolved are within their limits and the expanded model costs at most 1,000,000 items and the configured characters; then it is the whole model of all texts in order. What that is by position say the results of `OdfBodies`, `OdfTables`, `OdfOutline` and `OdfNumbering`. |
| OdfBodies.TextIsItsElements | src/Word/Private/OdfTextCodec.cpp:1699-1753 | Every block of a text comes from one element, in document order, sections being transparent: a paragraph from a paragraph, a table from a table, and from a list one paragraph for each paragraph element anywhere in it. |
| OdfBodies.FlatReadsTheSame | src/Word/Private/OdfTextCodec.cpp:1731-1738 | A section reads as its contents would in its place, and what is not read might as well be missing. |
| OdfBodies.CellIsItsChildren | src/Word/Private/OdfTextCodec.cpp:1594-1626 | The same for the paragraphs of a cell, which has one empty paragraph if there is no other. |
| OdfBodies.StyleIsNamed | src/Word/Private/OdfTextCodec.cpp:1296-1315 | A paragraph has the style that it names, for a generated name its parent; a heading without one has Heading1 to Heading9 by its outline level, and the writer tells the same level from it. |
| OdfTables.RowIsItsColumns | src/Word/Private/OdfTextCodec.cpp:1628-1667 | A row has as many cells as its elements cover columns, repetitions counted, and the cell in each column is what the one element covering it reads to, or one empty paragraph if that is a covered cell. |
| OdfTables.TableIsItsRows | src/Word/Private/OdfTextCodec.cpp:1669-1697 | The same for the rows of a table. |
| OdfOutline.ListIsItsParagraphs | src/Word/Private/OdfTextCodec.cpp:1514-1561 | Reading a list, however deep, gives one paragraph for each path to a paragraph element, in document order: directly in an item with the identifier of the list, the level of its depth or 8, and as a continuation unless it is the first of its item; directly in a header unnumbered. |
| OdfNumbering.ListsAreIdentified | src/Word/Private/OdfTextCodec.cpp:1437-1492 | Of the lists of a text in document order: one that names a list to continue has the identifier of the first list of that name before it, if any; one that only continues numbers has that of the list before, if their styles are the same; every other has a new one. |
| OdfNumbering.EffectiveStyleIs | src/Word/Private/OdfTextCodec.cpp:1541-1568 | The style of a list is the one it names, or else the list style of the first paragraph directly in one of its items. |
| OdfLimits.LimitsAre | src/Word/Private/OdfTextCodec.cpp:1011-1023 | A text meets the limits if and only if no more than 128 sections, lists or inline elements stand inside each other, every number of rows, columns and spaces anywhere is absent or from one to a million, and no style named anywhere is nested too deep. |
| OdfReader.OneTextIsLimited | src/Word/Private/OdfTextCodec.cpp:1770-1781 | Every office:text has a budget of its own: the limit on items holds for all bodies with n texts if and only if n is at most one. |
| OdfReader.OneTextHasItsCharacters | src/Word/Private/OdfTextCodec.cpp:1773-1776 | The same for the configured number of characters: it bounds all bodies with n texts if and only if n is at most one or the number is 0. |
| OdfReader.BodyIsBounded | src/Word/Private/OdfTextCodec.cpp:1770-1781 | A body never exceeds the budgets of its texts together. |
| OdfReader.FullTexts | src/Word/Private/OdfTextCodec.cpp:1770-1781 | That bound is reached: n texts with a table of 999,999 rows each are read and hold n million items. |
| OdfReader.IdentifiersStartAgain | src/Word/Private/OdfTextCodec.cpp:1773-1776 | Lists of different texts can have the same identifier: each text counts from one. |
| OdfReader.ReadContext.ParseBlockContainer | src/Word/Private/OdfTextCodec.cpp:1699-1753 | Either exactly the cost of what is read is charged and it is read, or the expansion fails; it fails exactly when the elements are unreadable or their cost does not fit. |
| OdfReader.ReadContext.ParseTable | src/Word/Private/OdfTextCodec.cpp:1668-1697 | The same for a table and its repeated rows. `OdfTables.TableIsItsRows` says which rows those are. |
| OdfReader.ReadContext.ParseTableRow | src/Word/Private/OdfTextCodec.cpp:1619-1666 | The same for a row, its repeated and its covered cells. `OdfTables.RowIsItsColumns` says by columns which cells those are. |
| OdfReader.ReadContext.ParseRowChild | src/Word/Private/OdfTextCodec.cpp:1627-1663 | One cell is charged once and its copies by multiplication. It stands for the columns that it covers (`OdfTables.RowIsItsColumns`). |
| OdfReader.ReadContext.ParseTableCell | src/Word/Private/OdfTextCodec.cpp:1571-1617 | The same for a cell, which holds an empty paragraph if nothing else. |
| OdfReader.ReadContext.ParseListParagraphs | src/Word/Private/OdfTextCodec.cpp:1474-1569 | The same for a list; a top-level one takes a new identifier and is renumbered when it turns out to continue another. |
| OdfReader.ReadContext.ParseItemContent | src/Word/Private/OdfTextCodec.cpp:1510-1550 | The same for one item, with the continuation flag and the inferred list style. |
| OdfReader.ReadContext.FinalizeTopLevelListIdentifier | src/Word/Private/OdfTextCodec.cpp:1422-1472 | The identifier is that of the named list, of the previous list of the same style, or the provisional one; the bookkeeping follows. |
| OdfReader.ReadContext.ParseParagraph | src/Word/Private/OdfTextCodec.cpp:1284-1329 | The same for a paragraph. |
| OdfReader.ReadContext.ParseInlines | src/Word/Private/OdfTextCodec.cpp:1126-1282 | The same for the content of a paragraph, a span or a flattened element. |
| OdfReader.ReadContext.AppendRunText | src/Word/Private/OdfTextCodec.cpp:1034-1060 | A run is started or extended and charged: its octets, and one item if it is new. |
| OdfReader.ReadContext.ConsumeCopies | src/Word/Private/OdfTextCodec.cpp:1368-1393 | Copies are charged exactly if they fit; the products are formed only then and stay within the limits. |
| OdfReader.ReadContext.ConsumeItems | src/Word/Private/OdfTextCodec.cpp:979-993 | Items are charged exactly if they fit. |
| OdfReader.ReadContext.ConsumeCharacters | src/Word/Private/OdfTextCodec.cpp:995-1009 | Characters are charged exactly if they fit. |
| OdfReader.CopiesFit | src/Word/Private/OdfTextCodec.cpp:1378-1381 | The division test refuses exactly the copies whose product would not fit. |
| OdfReader.CopiesCost | src/Word/Private/OdfTextCodec.cpp:1637-1644 | One charge for the first occurrence and a product for the others is the cost of all copies. |
| OdfReader.ReadInlinesGrow | src/Word/Private/OdfTextCodec.cpp:1034-1060 | Reading on never lowers what a paragraph costs. |
| OdfReader.NormalizedOdfCharacters | src/Word/Private/OdfTextCodec.cpp:1083-1101 | The loop over a chunk of characters computes its text and the whitespace state after it. |
| OdfText.ParagraphTextIsWholeText | src/Word/Private/OdfTextCodec.cpp:1126-1329 | The runs of a paragraph hold the text of the rule of section 6.1.2 of OpenDocument 1.3 Part 3 on its whole text, however it is split into chunks, spans and elements, with the properties of the innermost span, and end exactly where the properties change or a span begins or ends. |
| OdfText.StreamIsWholeText | src/Word/Private/OdfTextCodec.cpp:1062-1101 | Collapsing character by character with two flags is stripping both ends and replacing every other run of blanks by one space. |
| OdfWriter.WriteOdfText | src/Word/Private/OdfTextCodec.cpp:2498-2537 | The loop writes the specified chunks and elements, or fails exactly when the text is not UTF-8 or not XML. |
| OdfWriter.ReadWrittenText | src/Word/Private/OdfTextCodec.cpp:2498-2537 | Reading a written text gives the text with CR and CRLF as LF, in one run. |
| OdfWriter.WrittenTextIsReadable | src/Word/Private/OdfTextCodec.cpp:1169-1186 | A written text can be read exactly when it has no more than a million spaces in a row. |
| OdfWriter.TooManySpaces | src/Word/Private/OdfTextCodec.cpp:1169-1186 | A text of a million and one spaces is written as an element that the reader refuses. |
| OdfWriter.RunsRoundTrip | src/Word/Private/OdfTextCodec.cpp:2539-2565 | The runs of a written paragraph come back with their boundaries, in order, except that empty runs disappear. |
| OdfWriter.WrittenParagraphIsReadable | src/Word/Private/OdfTextCodec.cpp:2539-2565 | A written paragraph can be read exactly when none of its runs has more than a million spaces in a row. |
| OdfWriter.WriteParagraph | src/Word/Private/OdfTextCodec.cpp:2539-2565 | The loop writes one span per run, or fails if a run cannot be written. |
| OdfStyles.ResolveStyle | src/Word/Private/OdfTextCodec.cpp:757-808 | The recursion ends on every style map, cyclic or not, leaves the shared set as it was, and reports an error exactly as specified. |
| OdfStyles.TooDeepIsOverlongWalk | src/Word/Private/OdfTextCodec.cpp:766-772 | For every style map, cyclic or not: resolving a name reports the depth error if and only if 129 different styles follow from it, parent by parent, and the last of them names a parent, existing or not. |
| OdfStyles.ResolveIsNearestSetting | src/Word/Private/OdfTextCodec.cpp:743-808 | Every field of the result comes from the nearest style that sets it on the one walk up the parents, cut at a missing parent, a repetition or 129 styles. |
| FormSearch.Find | src/Editing/DocumentEditor.cpp:112-121 | Something is found exactly when an element of the id can be reached from some page through form content, although visited content is shared between pages; what is found is such an element. |
| FormSearch.FindInElements | src/Editing/DocumentEditor.cpp:46-64 | The walk ends on cyclic content; without a result everything newly visited is free of the id. |
| FormSearch.Remove | src/Editing/DocumentEditor.cpp:198-208 | Something is removed exactly when an element of the id can be reached; then it is one such element, and no other list or element changes. |
| FormSearch.RemoveFromElements | src/Editing/DocumentEditor.cpp:66-88 | The walk ends on cyclic content and erases at most one element. |
| FormSearch.OnePlace | src/Editing/DocumentEditor.cpp:112-121 | With unique ids there is one place for an id, so remove deletes what find returns. |
| FormSearch.ErasedIsGone | src/Editing/DocumentEditor.cpp:198-208 | With unique ids no reachable element has the id after its removal. |
| FormSearch.NextElementId | src/Editing/DocumentEditor.cpp:238-246 | The new id exceeds every reachable id if and only if the greatest 64-bit value is not in use; otherwise it is 0. |
| FormSearch.UpdateMaximumId | src/Editing/DocumentEditor.cpp:90-103 | The walk ends on cyclic content and its maximum bounds everything newly visited and is attained. |
| FormSearch.GreatestIdIsNotExceeded | src/Editing/DocumentEditor.cpp:238-246 | One element with the greatest id is enough: no id exceeds it. |
| Unicode.EncodeThenDecode | src/Codec/Private/Text.h:68-126 | Code points survive encoding and decoding if and only if all are Unicode scalar values. |
| Unicode.DecodeThenEncode | src/Codec/Private/Text.h:68-126 | Bytes that decode are the encoding of what they decode to (section 3 of RFC 3629). |
| Unicode.EncodeOneIsTable | src/Codec/Private/Text.h:106-126 | The bytes of a code point are those of the table in section 3 of RFC 3629. |
| Unicode.EncodingKeepsOrder | src/Codec/Private/Text.h:106-126 | Texts in UTF-8 are in the order of their code points. |
| Unicode.DecodeUtf8 | src/Codec/Private/Text.h:68-105 | The loop decodes or rejects exactly as specified. |
| Unicode.EncodeUtf8 | src/Codec/Private/Text.h:106-126 | The loop appends the bytes of every code point. |
| XmlBytes.ValidPdfText | src/Pdf/Private/TextValidation.h:8-33 | The validator accepts exactly the NUL-free strict UTF-8 strings of at most 2^20 bytes. |
| XmlBytes.ToXmlUtf8 | src/Codec/Private/XmlBytes.h:15-94 | The detection, the decoding loops and the character check compute the specified text or fail. |
| XmlBytes.Utf16BecomesUtf8 | src/Codec/Private/XmlBytes.h:64-93 | UTF-16 with a byte order mark, in either order, becomes the UTF-8 of the same characters (section 2 of RFC 2781). |
| XmlEncodings.EveryFamilyBecomesUtf8 | src/Codec/Private/XmlBytes.h:44-93 | An XML text in UTF-8, UTF-16 or UTF-32, in either order, behind its mark or with "<" first, becomes the UTF-8 of the same characters. |
| XmlEncodings.Latin1BecomesUtf8 | src/Codec/Private/XmlBytes.h:44-63 | A text that declares Latin-1 is read byte for byte. |
| XmlBytes.XmlUtf8IsXmlText | src/Codec/Private/XmlBytes.h:90-93 | Whatever the input encoding, a result is the UTF-8 of XML characters. |
| XmlEncodings.XmlCharactersAre | src/Codec/Private/XmlBytes.h:6-9 | The characters of XML are all code points but the surrogates, U+FFFE and U+FFFF, and the controls other than tab, line feed and carriage return. |
| XmlBytes.Utf8IsKept | src/Codec/Private/XmlBytes.h:44-63 | UTF-8 after its mark is passed through. |
| Base64.EncodeBase64 | src/Codec/Private/Base64.h:6-21 | The loop encodes groups of three octets, the last one padded. |
| Base64Bits.EncodingIsSextets | src/Codec/Private/Base64.h:6-21 | Every character is the letter in table 1 of RFC 4648 of its six bits of the octets in order, or padding behind them. |
| Base64.DecodeBase64 | src/Codec/Private/Base64.h:22-55 | The loop decodes groups of four digits and refuses misplaced padding, foreign characters and texts that are not canonical. |
| Base64.DecodeOfEncode | src/Codec/Private/Base64.h:22-55 | Decoding inverts encoding. |
| Base64.DecodeAcceptsExactlyEncodings | src/Codec/Private/Base64.h:22-55 | Decoding accepts exactly the texts that encoding produces (section 3.5 of RFC 4648). |
| Markup.MarkupRoundTrip | src/Metadata/Authorship_p.hpp:26-59 | Writing and reading an authored body gives back both parts if and only if the body holds no authorship token and a record, if there is one, fits the size limit: nothing matches early or across a seam. |
| MarkupForm.ReadsExactly | src/Metadata/Authorship_p.hpp:34-59 | A file is read in exactly two cases: without the token as a body; or as a body without the token and the record of one comment with canonical Base64, which is accepted and not too long, with white space behind. |
| Markup.MarkerIsFound | src/Metadata/Authorship_p.hpp:37-38 | The first marker of a marked file is the one that was written. |
| PdfElements.ClassifyLosesNothing | src/Pdf/PdfDocumentReader.cpp:187-315 | The elements hold all instructions in order, each at least one, under consecutive ids. |
| PdfElements.KindsAreRight | src/Pdf/PdfDocumentReader.cpp:187-315 | By the operators of annex A of ISO 32000-1: text, inline images and paths reach to their first terminator or the end; the four instructions around a known resource are always one element; everything else stands alone under the kind of its operator. |
| PdfElements.OnlyClassification | src/Pdf/PdfDocumentReader.cpp:187-315 | No other division of the instructions into elements fits that description. |
| PdfObjects.PageBecomesItsObjects | src/Pdf/PdfDocumentReader.cpp:187-315 | A stream of page objects as section 8.2 of ISO 32000-1 lists them (paths with any painting operator, text, inline images, shadings, XObjects, placed or not, marked content and state operators) is classified object for object: one element each, of its kind and with its instructions, and one more for the EI of an inline image. |
| PdfElements.SerializedWithOverrides | src/Pdf/PdfDocumentWriter.cpp:157-187 | Serialising writes every instruction in order; only the name in the Do of an element with an override changes. |
| PdfElements.SerializeClassified | src/Pdf/PdfDocumentWriter.cpp:157-187 | Classifying and writing back without overrides gives exactly the syntax of the original instructions. |
| PdfElements.Classify | src/Pdf/PdfDocumentReader.cpp:187-315 | The index loop computes the specified elements and advances the id counter by their number. `PdfElements.KindsAreRight` and `PdfObjects.PageBecomesItsObjects` say by operators which those are. |
| PdfElements.NextGroup | src/Pdf/PdfDocumentReader.cpp:197-313 | One turn of the loop finds the specified group. |
| PdfElements.SerializeElements | src/Pdf/PdfDocumentWriter.cpp:178-187 | The loop writes all elements in order. |
| PdfElements.SerializeElement | src/Pdf/PdfDocumentWriter.cpp:157-176 | The loop writes the instructions of an element, the Do operands of an overridden one replaced. |
| PdfTokens.StreamIsRead | src/Pdf/PdfDocumentWriter.cpp:157-187 | A written content stream is read, by the lexical rules of section 7.2 of ISO 32000-1, as the operands and operators of its instructions in order, nested values included: nothing is lost, split or run together. |
| PdfTokens.InstructionIsRead | src/Core/PdfValue.cpp:349-369 | One instruction is read back so, whatever follows it. |
| PdfTokens.NameIsPrintable | src/Core/PdfValue.cpp:38-55 | A name is written in printable ASCII without delimiters, and as it is exactly when it has no other bytes and no number sign. |
| PdfTokens.StringIsPrintable | src/Core/PdfValue.cpp:57-99 | A literal string is written in printable ASCII, and as it is exactly when it holds nothing else, no parenthesis and no backslash. |
| PdfTokens.SolidusIsOptional | src/Core/PdfValue.cpp:38-55 | A name is written alike with and without its solidus, and read back without it. |
| PdfContent.LiteralRoundTrip | src/Core/PdfValue.cpp:57-99 | A literal string ends at its own parenthesis and is read back byte for byte by the rules of section 7.3.4.2 of ISO 32000-1. |
| PdfContent.NameRoundTrip | src/Core/PdfValue.cpp:38-55 | A name is read back byte for byte by the rules of section 7.3.5 of ISO 32000-1. |
| PdfContent.EscapeLiteralString | src/Core/PdfValue.cpp:57-99 | The loop escapes every byte of a literal string. |
| PdfContent.EscapeName | src/Core/PdfValue.cpp:38-55 | The loop escapes every byte after the solidus. |
| PdfContent.WriteInstruction | src/Core/PdfValue.cpp:349-369 | The loop separates operands and operator by single spaces. |
| PdfReal.FormattedIsPdfReal | src/Core/PdfValue.cpp:101-154 | For every decimal text the result has no exponent, denotes the same number, has no superfluous fractional zero or point, and is not "-0" (section 7.3.3 of ISO 32000-1). |
| PdfReal.FormatReal | src/Core/PdfValue.cpp:101-154 | The string operations compute that result. |
| PdfReal.ExpandText | src/Core/PdfValue.cpp:115-145 | Sign, point and exponent are found in the text, and the exponent is worked into the digits. |
| PdfReal.TrimText | src/Core/PdfValue.cpp:146-153 | The loop drops exactly the zeros at the end of the fraction, and then the point. |
| PdfReal.ExpandedDenotes | src/Core/PdfValue.cpp:128-145 | Working the exponent in does not change the number. |

## Left out

- History.VersionHistory.Record: does not model the rollback when memory runs out in the middle of a call.
- HistoryRuns.EveryRunVerifies: assumes that every header and body fits a std::string, as every std::string does.
- XmlEditor.XmlTreeDocument.ReplaceRangeInPlace: does not model `checkedAdd`, because the spliced text that it guards exists already, nor the authorship record that a commit touches.
- HtmlEditor.HtmlBlockDocument.Create: does not claim that the new block becomes a child of its parent, since the tracker may report other blocks between them; under a self-closing parent it is inserted after it.
- XmlPlacement.CreatedIsPlaced: says nothing about the name of a self-closing element that is opened, which the parser reads anew, nor that no element which was not there before stands between the parent and the new one.
- HtmlHierarchy.ResolveDepth: does not model the depth limit of std::size_t, which more blocks than memory would have to reach.
- XmlTree.AppendNode: does not model attributes, nor the limits on node count and depth of 64-bit counters.
- OdfReader.ReadContext.ParseBlockContainer: does not model diagnostics other than the errors that decide success, nor a failing XML reader, nor what is left of the document after a failed expansion.
- OdfReader.ParseBody: takes a failed expansion as no result; the original returns what it has with an error.
- OdfReader.ReadContext.ParseListParagraphs: does not model the width of the identifier counter.
- OdfPlan.PropertiesRoundTrip: takes sizes as real numbers and rounds them to the nearest ten-thousandth, because how binary fractions round is `std::to_chars`; quoting, case and blanks in attributes are modelled, their other spelling is not.
- OdfWriter.WriteParagraph: takes the names of automatic styles as parameters; `OdfPlan` supplies them.
- OdfRoundTrip.ReadDocument: does not choose the page layout; in a written document that choice resolves only styles of paragraphs, which are resolved anyway.
- OdfRoundTrip.WriteDocument: goes from the document to elements and style declarations and back; XML text, the size limits on files, names of styles and fonts that XML cannot hold, and section geometry are not modelled.
- PdfTokens.InstructionIsRead: excludes inline image data and raw syntax, whose bytes are the caller's, and takes the lexical rules of the standard for the parser of QPDF.
- OdfLists.WriteListLevel: builds the list that the original writes to a stream of tags.
- FormSearch.FindInElements: returns the visited set that the original passes by reference.
- PdfElements.Classify: does not model the bounds of paths and images, moved-from instructions, or a wrapping id counter.
- PdfReal.FormatReal: starts from the text that `std::to_chars` gives; infinite values, which the original refuses, have none.
- XML prologs, declarations, entities and comments outside the root: part of what the parser answers.
- QPDF, libzip, pugixml, nlohmann/json, iiXml and iiFileProvider: libraries that are not part of this repository's own code.
- DOCX packages: mostly element boilerplate; the list validator is the same as the OpenDocument one.
- The JSON layer of Thinking Space files: a thin mapping over the JSON library.
- Files, staging, permissions, the LibreOffice process and legacy `.doc`: operating-system calls.
- PDF objects, annotations, forms and images: calls into QPDF.
- Page layouts, list style definitions, document metadata, geometry: no invariant spans more than one function.
