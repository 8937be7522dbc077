# Verification of the DNP3 message bus and its configuration engine

This project models two parts of the RTI DNP3 message bus and Routing Service
adapter and proves properties of them with Dafny 4.11. `dafny verify
dfyconfig.toml` checks everything.

**The configuration engine** (`lcfg_static.cpp`), layer by layer, each with the
code's own shape (objects, arrays, loops) and a separate specification:

| file | what it holds |
|---|---|
| `Numerals.dfy` | decimal numerals, `strtol`, `strtoul`, integer widths |
| `LcfgString.dfy` | the growable string buffer |
| `LcfgReader.dfy` | the 255-byte buffered reader over the results of `read` |
| `LcfgTokens.dfy`, `LcfgLexicon.dfy`, `LcfgBytes.dfy`, `LcfgScanner.dfy` | the character automaton, an independent description of written files, the laws byte by byte, the scanner object |
| `LcfgPath.dfy`, `LcfgGrammar.dfy`, `LcfgParser.dfy` | dotted paths, grammar with meaning and push-down automaton, the parser object |
| `LcfgLanguage.dfy` | the language end to end, and a printer |
| `LcfgTree.dfy`, `LcfgRebuild.dfy`, `LcfgTreeNode.dfy` | the nested index: what it answers, when it is the syntax tree, the mutable nodes |

**The message bus**: the array macros (`GrowArray.dfy`), the string map
(`ConfigMap.dfy`), the registry of proxies and connections (`MessageBus.dfy`),
the two route searches (`Routing.dfy`), the loader as a specification with its
theorems (`LoadConfig.dfy`) and as code (`Loader.dfy`), a writer of configurations
with its round trips (`ConfigWriter.dfy`), the subscription filter
(`FilterParser.dfy`), and the reader queue as a state machine with interleaved
arrivals and as an object (`ReaderQueue.dfy`).

Conventions. A `char` stands for one byte and all results hold for every `char`;
character classes are those of the C locale. The results of `read`, the outcome
of a conversion and the file contents are parameters. `long` has 64 bits, `int`
32, `short` 16; sizes and counters are unbounded. What is undefined in the
original (a path that leads through a string in the index, a required property
that is missing in a configuration) is a precondition, and for the index the
exact condition is proved.

Where the code and its documentation or error messages differ, the model follows
the code, and the difference is a lemma:

- A malformed `\x` escape is reported as an error but accepted
  (`LcfgLexicon.HexEscapeIsAlwaysAccepted`).
- A short `read` is taken for the end of the file (`LcfgReaders.VisibleIsContents`
  says exactly when that loses input).
- A value stored after a longer path through the same key is lost from the index
  though the list search finds it (`LcfgTrees.ShadowingFile`), one stored before
  such a path makes the index undefined (`LcfgTrees.ClashingFile`), and only the
  index overlooks empty segments in a key (`LcfgTrees.LeadingDotFile`);
  `LcfgTrees.IndexAgreesExactly` and `LcfgTrees.BuildFails` have the conditions.
- The loader does not set the proxy id for a proxy that exists already, so its
  connections are not routable or belong to another proxy
  (`LoadConfig.TurnServesExactly`, `LoadConfig.TurnPlacesExactly`,
  `LoadConfig.LeftoverIdMisroutes`).
- Closing a connection selects by position on the bus and by id in the proxy
  (`MessageBuses.MessageBus.DeleteConnection`).
- Addresses of proxies and connections that do not fit 16 signed bits are stored
  as other numbers (`LoadConfig.AddressesAreKeptExactly`), as are negative sizes
  and flags beyond a byte (`ConfigWriter.FieldsAreKeptExactly`).
- A leading zero in a number means octal (`Numerals.LeadingZeroIsOctal`), also in
  filters, where the manual has decimal digits (`FilterParser.AddressIsKeptExactly`).
- The filter values `unsol-response` and `type=-1` are documented but ignored
  (`FilterParser.ManualIsMetExactly`).
- White space other than blanks is not ignored in filters, except around addresses
  (`FilterParser.WhiteSpaceIsIgnoredExactly`); the example in the manual is hit by
  that when its line breaks are kept (`FilterParser.ManualExample`).

## Model

| member | source | states |
|---|---|---|
| LcfgLanguage.ParseExactly | dnp3_message_bus/src/lcfg_static.cpp:554-1165 | a file is accepted with a given list of values if and only if it is a written form (any blanks, comments, escapes) of a sentence of the grammar whose flattening is that list, in document order |
| LcfgLanguage.PrintThenParse | dnp3_message_bus/src/lcfg_static.cpp:554-1165 | round trip: the text printed for any syntax tree with identifier keys and arbitrary strings, at any nesting, with every byte that has an escape letter written by it, parses back to exactly its flattening |
| LcfgLanguage.ParsedTree | dnp3_message_bus/src/lcfg_static.cpp:987-1165 | every accepted file has a syntax tree with identifier keys, whose flattening is what was recorded, and printing that tree gives an equivalent file |
| LcfgLanguage.SpellingIsIrrelevant | dnp3_message_bus/src/lcfg_static.cpp:621-839 | blanks, comments and the choice of escapes at the front of a file never change the outcome of a parse, whatever follows, failures of the scanner and of the grammar included |
| LcfgLanguage.GrammarErrorKeepsValues | dnp3_message_bus/src/lcfg_static.cpp:1046-1164 | behind whole entries, a token that is no key makes the parse fail, and exactly the values of these entries stay recorded, whatever follows |
| LcfgLanguage.ScanErrorLosesLast | dnp3_message_bus/src/lcfg_static.cpp:852-865 | when the input cannot be scanned on right behind a value, that value is lost with its token, and exactly the values before it stay recorded |
| LcfgLanguage.NestedByHand | dnp3_message_bus/src/lcfg_static.cpp:554-1165 | for all names and plain strings, the text `a={b=["x",{c="y"}]}` records x at a.b.0 and y at a.b.1.c |
| LcfgLanguage.StackFitsFile | dnp3_message_bus/src/lcfg_static.cpp:1046-1150 | over every run, also a failing one: the stack keeps its shape, the path has exactly one segment per open state, nesting is at most the file length, and all recorded paths are non-empty with proper segments |
| LcfgParsers.Parser.Parse | dnp3_message_bus/src/lcfg_static.cpp:987-1165 | the parse loop over scanner, in-place path, doubling stack and doubling value array ends on every input and returns the status and the values the language assigns to the remaining input, one token of read-ahead included |
| LcfgParsers.ParseFile | dnp3_message_bus/src/lcfg_static.cpp:1167-1185 | from the blocks delivered by `read` to the stored pairs: status and values are those of the visible text |
| LcfgLexicon.LexExactly | dnp3_message_bus/src/lcfg_static.cpp:621-839 | the character automaton yields a token list without error if and only if the input is a written form of exactly these tokens |
| LcfgLexicon.LexDoc | dnp3_message_bus/src/lcfg_static.cpp:621-839 | every written form is scanned back: any gaps and any spelling of each string |
| LcfgLexicon.DocForm | dnp3_message_bus/src/lcfg_static.cpp:621-839 | every input that scans without error has a written form that renders to exactly that input |
| LcfgLexicon.HexEscapeIsAlwaysAccepted | dnp3_message_bus/src/lcfg_static.cpp:778-797 | a `\x` escape is accepted whatever two bytes follow, although the code reports an error for bad digits: the state that refuses it is overwritten; the byte is the one denoted if and only if both are hexadecimal digits |
| LcfgBytes.StartByte | dnp3_message_bus/src/lcfg_static.cpp:637-687 | what each of the 256 byte values does between tokens, by number |
| LcfgBytes.CommentsAreSkipped | dnp3_message_bus/src/lcfg_static.cpp:688-725 | a comment is skipped up to its newline, or to the first star and slash behind its start, for every text inside |
| LcfgBytes.EscapeByte | dnp3_message_bus/src/lcfg_static.cpp:748-777 | behind a backslash, quote, backslash, n, t, r and 0 stand for the bytes 34, 92, 10, 9, 13 and 0, x opens a hexadecimal escape, and every other byte is an error |
| LcfgBytes.HexEscape | dnp3_message_bus/src/lcfg_static.cpp:778-797 | two hexadecimal digits behind `\x` append the byte that they denote |
| LcfgBytes.UnendedCommentFails | dnp3_message_bus/src/lcfg_static.cpp:826-836 | a comment that the end of the file cuts off is an error, also one that only lacks its newline |
| LcfgBytes.UnendedNameFails | dnp3_message_bus/src/lcfg_static.cpp:826-836 | a name that the end of the file cuts off is an error |
| LcfgBytes.UnendedStringFails | dnp3_message_bus/src/lcfg_static.cpp:826-836 | a string without its closing quote is an error |
| LcfgTokens.ScanConsumes | dnp3_message_bus/src/lcfg_static.cpp:630-826 | every token takes at least one byte and the rest is a suffix of the input, so reading tokens terminates |
| LcfgTokens.TokenCountAtMostLength | dnp3_message_bus/src/lcfg_static.cpp:630-826 | no more tokens than bytes |
| LcfgTokens.LexGivesProperTokens | dnp3_message_bus/src/lcfg_static.cpp:688-725 | identifier tokens are a letter followed by letters, digits, dashes and underscores |
| LcfgScanners.Scanner.AdvanceStart | dnp3_message_bus/src/lcfg_static.cpp:637-687 | the start state on the scanner's fields: punctuation sets the kind, a quote or a letter restarts the text |
| LcfgScanners.Scanner.AdvanceEscape | dnp3_message_bus/src/lcfg_static.cpp:748-797 | the escape states, with the refused hexadecimal digit and its overwritten state |
| LcfgScanners.Scanner.Advance | dnp3_message_bus/src/lcfg_static.cpp:635-800 | one step of the automaton on the scanner's own fields agrees with the specification for every state and byte, and tells whether the byte is consumed |
| LcfgScanners.Scanner.Consume | dnp3_message_bus/src/lcfg_static.cpp:808-820 | consuming a byte moves the reader by one and keeps line and column equal to those of the consumed text |
| LcfgScanners.PositionAfter | dnp3_message_bus/src/lcfg_static.cpp:808-820 | the line is one more than the newlines consumed, and the column one more than the bytes behind the last of them |
| LcfgScanners.Scanner.TokenRead | dnp3_message_bus/src/lcfg_static.cpp:621-839 | the reading loop delivers the next token, the clean end or an error exactly as specified, and leaves the reader right behind the token |
| LcfgScanners.Scanner.NextToken | dnp3_message_bus/src/lcfg_static.cpp:852-865 | hands out the prepared token and prepares the next; asking beyond the end is an error that changes no field |
| LcfgReaders.VisibleIsContents | dnp3_message_bus/src/lcfg_static.cpp:573-592 | the reader lets through the whole input if and only if no `read` comes back short before the end |
| LcfgReaders.VisibleUpToShortBlock | dnp3_message_bus/src/lcfg_static.cpp:573-592 | everything up to and including the first block of fewer than 255 bytes is let through, and nothing behind it |
| LcfgReaders.RegularFileIsSeenWhole | dnp3_message_bus/src/lcfg_static.cpp:554-592 | a regular file of any length, exact multiples of 255 included, is seen whole |
| LcfgReaders.Reader.BufferFill | dnp3_message_bus/src/lcfg_static.cpp:554-571 | refilling the buffer does not change the bytes still to come |
| LcfgReaders.Reader.CharEof | dnp3_message_bus/src/lcfg_static.cpp:573-592 | end of file is reported if and only if nothing is left, and testing for it loses nothing |
| LcfgReaders.Reader.CharPeek | dnp3_message_bus/src/lcfg_static.cpp:607-618 | peeking shows the next byte, never a stale one, and fails exactly at the end |
| LcfgReaders.Reader.CharRead | dnp3_message_bus/src/lcfg_static.cpp:594-605 | reading returns the next byte and moves past it, and fails exactly at the end |
| LcfgStrings.LcfgString.Grow | dnp3_message_bus/src/lcfg_static.cpp:322-331 | after growing, the wanted size and a terminator fit, and the text is unchanged |
| LcfgStrings.LcfgString.NewCopy | dnp3_message_bus/src/lcfg_static.cpp:347-359 | a copy has the same text in a block of its own |
| LcfgStrings.LcfgString.CatUint | dnp3_message_bus/src/lcfg_static.cpp:361-387 | appends exactly the decimal numeral of the number |
| LcfgStrings.LcfgString.WriteDecimal | dnp3_message_bus/src/lcfg_static.cpp:375-384 | the digits written backwards are the numeral, and nothing before them is touched |
| LcfgStrings.LcfgString.CatCstr | dnp3_message_bus/src/lcfg_static.cpp:427-438 | appends the string |
| LcfgStrings.LcfgString.CatChar | dnp3_message_bus/src/lcfg_static.cpp:440-447 | appends the character |
| LcfgStrings.LcfgString.Trunc | dnp3_message_bus/src/lcfg_static.cpp:419-425 | cuts the text to a prefix, or leaves it alone when it is short enough |
| LcfgStrings.LcfgString.Find | dnp3_message_bus/src/lcfg_static.cpp:389-402 | the first position of a character, or -1 if and only if it does not occur |
| LcfgStrings.LcfgString.Rfind | dnp3_message_bus/src/lcfg_static.cpp:404-417 | the last position of a character, or -1 |
| Numerals.DecimalValue | dnp3_message_bus/src/lcfg_static.cpp:361-387 | the digits of the numeral denote the number again |
| Numerals.DecimalInjective | dnp3_message_bus/src/lcfg_static.cpp:361-387 | different list positions have different numerals |
| Numerals.DecimalNoLeadingZero | dnp3_message_bus/src/lcfg_static.cpp:361-387 | the numeral has no leading zero, except that of zero |
| LcfgPaths.PopUndoesPush | dnp3_message_bus/src/lcfg_static.cpp:1019-1027 | cutting the path at its last dot, or to nothing, undoes exactly the last push |
| LcfgPaths.SplitJoin | dnp3_message_bus/src/lcfg_static.cpp:1458-1478 | splitting a dotted key gives back the segments it was joined from |
| LcfgPaths.SplitAtDot | dnp3_message_bus/src/lcfg_static.cpp:1458-1478 | splitting works dot by dot on every key, and skips empty pieces |
| LcfgPaths.JoinSplit | dnp3_message_bus/src/lcfg_static.cpp:1458-1478 | a key without empty segments is split into segments that join to it again |
| LcfgPaths.NormalExactly | dnp3_message_bus/src/lcfg_static.cpp:1458-1478 | splitting a key and joining it again gives the key back if and only if no segment of it is empty |
| LcfgPaths.CStringCuts | dnp3_message_bus/src/Utils.cpp:75-93 | a copied string ends before its first NUL |
| LcfgPaths.SplitCount | dnp3_message_bus/src/lcfg_static.cpp:1461-1476 | there are at most as many segments as the array declared for them holds |
| LcfgGrammar.AcceptsExactly | dnp3_message_bus/src/lcfg_static.cpp:1046-1164 | the push-down automaton accepts a token sequence if and only if the grammar generates it, and what it records is the flattening of the parse |
| LcfgGrammar.RunKeyedValue | dnp3_message_bus/src/lcfg_static.cpp:1079-1104 | a value after `=` records its flattening and leaves the stack as it was before the key |
| LcfgGrammar.RunItems | dnp3_message_bus/src/lcfg_static.cpp:1106-1139 | a list numbers its elements by position, commas not counted, whatever is nested in them |
| LcfgGrammar.RunEntries | dnp3_message_bus/src/lcfg_static.cpp:1053-1071 | a sequence of pairs records the flattenings in order and comes back to the same state |
| LcfgGrammar.FileForm | dnp3_message_bus/src/lcfg_static.cpp:1046-1164 | from any accepting run a syntax tree is recovered whose tokens are the input |
| LcfgGrammar.UniqueParse | dnp3_message_bus/src/lcfg_static.cpp:1046-1164 | the grammar is unambiguous: different trees have different token sequences |
| LcfgGrammar.AdvanceKeepsProperStack | dnp3_message_bus/src/lcfg_static.cpp:1046-1144 | one token keeps the stack well-formed and adds at most one level |
| LcfgGrammar.RunKeepsProper | dnp3_message_bus/src/lcfg_static.cpp:1046-1144 | over any run the stack and the recorded paths stay well-formed |
| LcfgParsers.Parser.StackPush | dnp3_message_bus/src/lcfg_static.cpp:1004-1011 | pushing a state, with the array doubled when it is full, appends one cell and stays in bounds |
| LcfgParsers.Parser.PathPop | dnp3_message_bus/src/lcfg_static.cpp:1019-1027 | popping the path in place restores the text before the push |
| LcfgParsers.Parser.AddValue | dnp3_message_bus/src/lcfg_static.cpp:953-966 | appends the pair of current path and value, doubling the array when it is full |
| LcfgParsers.Parser.RecordElement | dnp3_message_bus/src/lcfg_static.cpp:1109-1116 | a string in a list is recorded under its position; path and stack come back, the counter moves on |
| LcfgParsers.Parser.OpenElement | dnp3_message_bus/src/lcfg_static.cpp:1117-1130 | a nested list or map names its position on the path, counts it, and opens |
| LcfgParsers.Parser.Step | dnp3_message_bus/src/lcfg_static.cpp:1053-1144 | the body of the parse loop on arrays and path agrees with the automaton for every state and token |
| LcfgParsers.Parser.Get | dnp3_message_bus/src/lcfg_static.cpp:1202-1217 | returns the first value recorded under the key |
| LcfgTrees.IndexHolds | dnp3_message_bus/src/lcfg_static.cpp:1400-1456 | what the index answers at any path, from the list of values alone: the first string stored there unless a longer path came first, and an inner node exactly where a stored path runs on |
| LcfgTrees.InsertFails | dnp3_message_bus/src/lcfg_static.cpp:1448-1455 | an insertion runs into a string, which the code treats as an inner node, if and only if a string is stored at a proper prefix of the path |
| LcfgTrees.BuildFails | dnp3_message_bus/src/lcfg_static.cpp:1400-1481 | building the index is undefined if and only if some path leads through a string stored before it |
| LcfgTrees.FindInserted | dnp3_message_bus/src/lcfg_static.cpp:1400-1456 | lookup of any path after an insertion: only the inserted path can gain a string, existing strings stay |
| LcfgTrees.IndexAgreesExactly | dnp3_message_bus/src/lcfg_static.cpp:1202-1607 | for every key, as it is given, index and list search agree if and only if: the path was not first stored after a longer one, for a key without empty segments; the index has no string at the path, for any other key, which the list search never finds |
| LcfgTrees.LookupFails | dnp3_message_bus/src/lcfg_static.cpp:1551-1570 | a lookup in the index runs into a string, which the code treats as an inner node, if and only if the index has a string at a proper prefix of the path |
| LcfgTrees.ShadowingFile | dnp3_message_bus/src/lcfg_static.cpp:1400-1481 | for all names and strings, `a={b="x"} a="y"` is accepted and indexed, the list search finds y under a, and the index does not |
| LcfgTrees.ClashingFile | dnp3_message_bus/src/lcfg_static.cpp:1448-1455 | for all names and strings, `a="y" a={b="x"}` is accepted, and building its index is undefined |
| LcfgTrees.LeadingDotFile | dnp3_message_bus/src/lcfg_static.cpp:1572-1607 | in `a="x"` the index finds x under the key `.a`, and the list search does not |
| LcfgTrees.StringOfFirstValue | dnp3_message_bus/src/lcfg_static.cpp:1202-1217 | the index holds at a path what the list search finds, unless the path is shadowed |
| LcfgRebuild.TreeIsSyntaxTree | dnp3_message_bus/src/lcfg_static.cpp:1400-1517 | for distinct sibling names the index, after type correction, is the syntax tree without empty lists and maps, with list and map kinds restored and list children named by their positions |
| LcfgRebuild.FileToTree | dnp3_message_bus/src/lcfg_static.cpp:987-1517 | from the bytes of an accepted file with distinct names to its tree |
| LcfgRebuild.DistinctFileAgrees | dnp3_message_bus/src/lcfg_static.cpp:1202-1607 | for an accepted file with distinct names, the corrected tree and the list search agree on a key if and only if it has no empty segment or its path is not stored |
| LcfgRebuild.BuildValue | dnp3_message_bus/src/lcfg_static.cpp:1400-1481 | inserting the values below a new name adds that value's shape behind the siblings |
| LcfgRebuild.CorrectEntries | dnp3_message_bus/src/lcfg_static.cpp:1483-1506 | looking at the first child's name marks exactly the lists of the syntax tree |
| LcfgRebuild.KindByFirstName | dnp3_message_bus/src/lcfg_static.cpp:1483-1506 | an inner node becomes a list when its first child is named by a number, and keeps its kind when that has an identifier |
| LcfgRebuild.NestedTree | dnp3_message_bus/src/lcfg_static.cpp:1400-1517 | the whole index of the text `a={b=["x",{c="y"}]}`, kinds included, for all names and plain strings |
| LcfgRebuild.CorrectKeepsAnswers | dnp3_message_bus/src/lcfg_static.cpp:1483-1506 | type correction changes no answer: strings, inner nodes and undefined lookups stay where they are |
| LcfgRebuild.TreeAgreesExactly | dnp3_message_bus/src/lcfg_static.cpp:1202-1607 | the agreement of both searches, for the tree as it is built and corrected, for any list of values |
| LcfgRebuild.EntriesPrefixFree | dnp3_message_bus/src/lcfg_static.cpp:1046-1150 | with distinct sibling names no recorded path is a proper prefix of another |
| LcfgTreeNodes.TreeNode.Insert | dnp3_message_bus/src/lcfg_static.cpp:1400-1456 | insertion in place, recursing through shared nodes, changes the tree exactly as specified |
| LcfgTreeNodes.TreeNode.CorrectType | dnp3_message_bus/src/lcfg_static.cpp:1483-1506 | type correction in place agrees with the specification on the whole tree |
| LcfgTreeNodes.TreeNode.GetRecursive | dnp3_message_bus/src/lcfg_static.cpp:1551-1570 | finds the node at a path, or nothing exactly when the path is missing |
| LcfgTreeNodes.TreeNode.Get | dnp3_message_bus/src/lcfg_static.cpp:1572-1607 | not found, wrong type or found, exactly as the tree says; the empty key gives the root |
| LcfgTreeNodes.TreeNode.GetText | dnp3_message_bus/src/lcfg_static.cpp:1619-1622 | the string search on the nodes equals the specified search of the index |
| LcfgTreeNodes.TreeNewFrom | dnp3_message_bus/src/lcfg_static.cpp:1508-1517 | all recorded values inserted in order and corrected give the specified tree |
| LcfgTreeNodes.SearchBoth | dnp3_message_bus/src/lcfg_static.cpp:1202-1622 | on the nodes built from a parser and on the parser itself, both searches return what the list of values determines, and the same if and only if the exact condition holds |
| LcfgTreeNodes.IndexFile | dnp3_message_bus/src/lcfg_static.cpp:1167-1517 | reading a file with distinct names and indexing it gives its syntax tree without the empty parts |
| GrowArrays.GrowArray.Expand | dnp3_message_bus/src/Utils.cpp:116-139 | growth by the increment is refused exactly when it would pass the maximum; contents unchanged |
| GrowArrays.GrowArray.AddExpand | dnp3_message_bus/include/dnp3msgbus/Utils.h:99-117 | appends when there is room or growth is allowed, and only then |
| GrowArrays.GrowArray.RemoveByIndex | dnp3_message_bus/include/dnp3msgbus/Utils.h:119-130 | shifting down removes exactly the slot and keeps the order; an index out of range changes nothing |
| GrowArrays.RemoveMiddle | dnp3_message_bus/include/dnp3msgbus/Utils.h:119-130 | removing a slot keeps everything before and behind it in order |
| GrowArrays.GrowArray.RemoveElement | dnp3_message_bus/include/dnp3msgbus/Utils.h:132-144 | removes the first occurrence if there is one |
| GrowArrays.GrowArray.ElementIndex | dnp3_message_bus/include/dnp3msgbus/Utils.h:152-164 | position of the first occurrence, and whether there is one |
| GrowArrays.IndexOfIsFirst | dnp3_message_bus/include/dnp3msgbus/Utils.h:152-164 | the position is that of the first occurrence, and the length if and only if there is none |
| GrowArrays.RemoveFirstMultiset | dnp3_message_bus/include/dnp3msgbus/Utils.h:132-144 | removal takes away exactly one occurrence |
| ConfigMaps.ConfigMap.Add | dnp3_message_bus/src/Utils.cpp:75-93 | appends copies of key and value up to their first NUL to the parallel arrays |
| ConfigMaps.ConfigMap.Get | dnp3_message_bus/src/Utils.cpp:62-73 | the backward search returns the last value added under the key |
| ConfigMaps.NewEntryWins | dnp3_message_bus/src/Utils.cpp:62-73 | a further entry decides the lookup of its own key and of no other |
| ConfigMaps.DictionaryItems | dnp3_message_bus/src/Utils.cpp:62-93 | with distinct keys the map holds exactly its entries |
| ConfigMaps.DictionaryIgnoresOrder | dnp3_message_bus/src/Utils.cpp:62-93 | the order of entries with distinct keys does not matter |
| ConfigMaps.MapAgreesWithList | dnp3_message_bus/src/lcfg_static.cpp:1186-1217 | with distinct paths, the map filled by the visitor and the parser's own search agree up to the first NUL of a value |
| ConfigMaps.MapHoldsLast | dnp3_message_bus/src/Utils.cpp:62-73 | for any list of values, keys recorded twice included, the map finds the last value up to its first NUL, so it agrees with the parser's search if and only if first and last value do |
| MessageBuses.MessageBus.NewProxy | dnp3_message_bus/src/MessageBus.cpp:61-86 | the id is the position, the registry stays consistent, and only the proxy is added |
| MessageBuses.MessageBus.NewConnection | dnp3_message_bus/src/MessageBus.cpp:118-154 | the connection is added to the bus and to its proxy's own list with id equal to position; without a proxy id nothing happens |
| MessageBuses.MessageBus.DeleteConnection | dnp3_message_bus/src/MessageBus.cpp:156-193 | closing keeps bus and proxy lists consistent if and only if position and id of the connection coincide, and keeps ids equal to positions if and only if the newest connection is closed; it reports success if and only if the owner has a connection with that id |
| MessageBuses.Proxy.NewConnection | dnp3_message_bus/src/Proxy.cpp:320-356 | a new connection with a back pointer is appended to the proxy's list |
| MessageBuses.Proxy.DeleteConnection | dnp3_message_bus/src/Proxy.cpp:358-389 | removes the first connection with the id, or reports that there is none |
| MessageBuses.ClosingIsConsistent | dnp3_message_bus/src/Proxy.cpp:358-389 | removing by id from the owner's list matches removing by position from the bus if and only if the ids agree |
| MessageBuses.OwnedByRemoveAt | dnp3_message_bus/src/MessageBus.cpp:156-193 | removing a connection from the bus changes the restriction to its owner only |
| Routing.GetConnection | dnp3_message_bus/src/MessageBus.cpp:234-316 | the nested search used for sending finds the newest match of the first proxy that has one, or nothing exactly when no connection joins the addresses; also stated on the objects |
| Routing.GetConnectionId | dnp3_message_bus/src/MessageBusC.cpp:685-705 | the backward search finds the newest match, or nothing exactly when no connection joins the addresses; also stated on the objects |
| Routing.GetProxyId | dnp3_message_bus/src/MessageBusC.cpp:61-79 | the first proxy with the name, or none |
| Routing.SearchesAgreeExactly | dnp3_message_bus/src/MessageBus.cpp:297-316 | both searches find something or both nothing; they find the same connection if and only if no earlier proxy than the newest match's owner has a match |
| Routing.UniqueRoutesAgree | dnp3_message_bus/src/MessageBusC.cpp:685-705 | without duplicate routes both searches find the same connection |
| LoadConfig.LoadTwice | dnp3_message_bus/src/MessageBusC.cpp:605-668 | loading the same file again, on any bus, creates nothing and changes nothing |
| LoadConfig.LoadReportsCreated | dnp3_message_bus/src/MessageBusC.cpp:613-675 | a load on any bus reports exactly what it creates: the new positions of proxies and of connections, in order |
| LoadConfig.TurnServesExactly | dnp3_message_bus/src/MessageBusC.cpp:609-665 | for an existing proxy, its listed connections are all routable after its turn if and only if they were before, or the left-over proxy id belongs to a proxy with the same address; for a new proxy they always are |
| LoadConfig.TurnPlacesExactly | dnp3_message_bus/src/MessageBusC.cpp:609-665 | for an existing proxy, everything that its turn creates is owned by a proxy of that name if and only if no proxy id is left over, or it belongs to a proxy of that name, or there was nothing to create; for a new proxy it always is |
| LoadConfig.LeftoverIdMisroutes | dnp3_message_bus/src/MessageBusC.cpp:609-651 | a concrete load in which the connection listed for an existing proxy is owned by another proxy, and not routable where it was listed |
| LoadConfig.LoadServes | dnp3_message_bus/src/MessageBusC.cpp:605-668 | a load that names only new proxies, or known ones with all their routes, makes every listed route, and no two connections join the same addresses |
| LoadConfig.LoadCreatesListed | dnp3_message_bus/src/MessageBusC.cpp:605-668 | each connection such a load creates is listed in the section of the proxy it is created on |
| LoadConfig.RunKeepsRoutesUnique | dnp3_message_bus/src/MessageBusC.cpp:561-683 | over any run of such loads routes stay unique |
| LoadConfig.FirstLoadAndReloads | dnp3_message_bus/src/MessageBusC.cpp:561-683 | a first load on an empty bus followed by any number of reloads is such a run and equals the first load |
| LoadConfig.AddressesAreKeptExactly | dnp3_message_bus/src/MessageBusC.cpp:446-539 | proxy and remote addresses are stored as the number read if and only if that fits a signed 16-bit field, and as the decimal number written if and only if moreover no leading zero makes it octal |
| LoadConfig.KeysAreDistinct | dnp3_message_bus/src/MessageBusC.cpp:427-428 | the keys of the numbered loops differ for different numbers |
| LoadConfig.UnusedShrinks | dnp3_message_bus/src/MessageBusC.cpp:605-631 | each pass of a numbered loop uses up another key of the finite map, so the loops end |
| LoadConfig.SectionsAreConsistent | dnp3_message_bus/src/MessageBusC.cpp:407-471 | a name stands for one proxy description throughout a file |
| Loader.ExtractProxyConfig | dnp3_message_bus/src/MessageBusC.cpp:407-471 | the proxy entry with the number, with its properties, or none when the key is missing |
| Loader.ExtractConnectionConfig | dnp3_message_bus/src/MessageBusC.cpp:486-544 | the connection entry with the number, its properties looked up under the address as written |
| ConfigWriter.ConnectionIsRead | dnp3_message_bus/src/MessageBusC.cpp:486-544 | every connection record whose numbers fit is read back field by field from any dictionary that holds its properties under their literal keys |
| ConfigWriter.ProxyIsRead | dnp3_message_bus/src/MessageBusC.cpp:407-471 | every proxy record is read back field by field from its literal keys |
| ConfigWriter.FieldsAreKeptExactly | dnp3_message_bus/src/MessageBusC.cpp:446-539 | whatever the texts of the properties are: timeouts are kept, and sizes, retries and flags are kept exactly when they fit their unsigned fields, which otherwise hold the low bits |
| ConfigWriter.SectionsAreRead | dnp3_message_bus/src/MessageBusC.cpp:605-631 | a dictionary with the entries of any list of proxies and connections is read as this list, up to the first missing number |
| ConfigWriter.WrittenIsRead | dnp3_message_bus/src/MessageBusC.cpp:407-544 | round trip: any list of proxies and connections whose numbers fit and whose entries have distinct keys, written as entries, is read back |
| Loader.LoadConnection | dnp3_message_bus/src/MessageBusC.cpp:630-665 | one connection entry: skipped when the route exists, lost without a proxy id, otherwise created |
| Loader.LoadMap | dnp3_message_bus/src/MessageBusC.cpp:605-668 | the nested loops end and leave the bus and the lists of new ids that the specification gives, with the left-over proxy id |
| Loader.FillMap | dnp3_message_bus/src/lcfg_static.cpp:1186-1200 | the visitor puts every recorded pair into the map in order |
| Loader.LoadConfigFile | dnp3_message_bus/src/MessageBusC.cpp:561-683 | from the blocks of a file to the bus: the specified load; nothing on the bus moves, the ids of exactly what is new are returned in order, and a file that cannot be parsed changes nothing |
| Loader.LoadFileTwice | dnp3_message_bus/src/MessageBusC.cpp:561-683 | loading a file twice is loading it once, on any bus |
| Loader.LoadFileAppends | dnp3_message_bus/src/MessageBusC.cpp:561-683 | loading any text, accepted or not, on any bus leaves everything in its place and reports exactly what is new |
| Loader.RefusedFileLoadsNothing | dnp3_message_bus/src/MessageBusC.cpp:595-598 | a text that is no written form of any syntax tree leaves the bus as it is and reports nothing |
| Loader.FileOrderIsIrrelevant | dnp3_message_bus/src/MessageBusC.cpp:561-683 | two files with the same entries under distinct keys load alike, whatever their order |
| ConfigWriter.PlainNamesAreUnambiguous | dnp3_message_bus/src/MessageBusC.cpp:407-544 | with names that are distinct and free of dashes, and different destinations within each proxy, no two of all the entries of a configuration have the same key, and none continues a numbering |
| Loader.FirstLoadRoutes | dnp3_message_bus/src/MessageBusC.cpp:561-705 | after a first load every listed route exists, and the search for sending and the search of the loader agree for all addresses |
| ConfigWriter.ConfigRoundTrip | dnp3_message_bus/src/MessageBusC.cpp:561-683 | the whole way: such a list, written to a file and loaded on an empty bus, gives exactly its proxies and connections, in order and field by field, when names and routes are distinct |
| FilterParser.ParseFilterText | rs_adapter/src/adapter/DNP3StreamReader.c:157-197 | the cursor loop ends on every text and computes the specified filter |
| FilterParser.ReadPiece | rs_adapter/src/adapter/DNP3StreamReader.c:108-155 | reads up to the stop character without blanks and leaves the cursor on the stop character or at the end |
| FilterParser.WordsKnown | rs_adapter/src/adapter/DNP3StreamReader.c:171-191 | the keys `src`, `dest`, `type` and the type names `request`, `response` are known, and no others have an effect |
| FilterParser.EmptyKeyEnds | rs_adapter/src/adapter/DNP3StreamReader.c:157-165 | parsing ends at the first key of blanks only; without an entry everything passes |
| FilterParser.EmptyValueVoidsNext | rs_adapter/src/adapter/DNP3StreamReader.c:165-171 | behind an empty value the semicolon joins the next key, so that both entries are void |
| FilterParser.BlanksAreIgnored | rs_adapter/src/adapter/DNP3StreamReader.c:108-197 | parsing a filter equals parsing it with all blanks removed |
| FilterParser.PaddedFilterIsTaken | rs_adapter/src/adapter/DNP3StreamReader.c:108-197 | a filter with any white space around its keys and values is read as the list of the entries whose white space is harmless; the others are void |
| FilterParser.FilterRoundTrip | rs_adapter/src/adapter/DNP3StreamReader.c:157-197 | every list of documented entries whose addresses fit 32 bits and have no leading zero that matters is read back entry by entry, later entries winning |
| FilterParser.AddressIsKeptExactly | rs_adapter/USERS_MANUAL.md:423-423 | `src=` or `dest=` and a numeral is read as the decimal number written if and only if that fits 32 signed bits and the numeral has no leading zero or is below 8 |
| FilterParser.TenWithZeroIsEight | rs_adapter/src/adapter/DNP3StreamReader.c:175-180 | the filter `src=010` asks for address 8 |
| FilterParser.ManualIsMetExactly | rs_adapter/USERS_MANUAL.md:402-423 | for every written list of entries, the parsed filter lets through exactly the units that the manual promises if and only if the last source and the last destination are read as written and no type entry is ignored with effect |
| FilterParser.WhiteSpaceIsIgnoredExactly | rs_adapter/USERS_MANUAL.md:425-425 | white space before the key, around the equals sign and behind the value of an entry makes no difference, to any filter, if and only if the entry has no effect, or it is only blanks before the equals sign and, unless the value is an address, only blanks behind it |
| FilterParser.ManualExample | rs_adapter/USERS_MANUAL.md:427-444 | the manual's own example, with any white space before and behind it: the source is heard if and only if only blanks precede it, and the type if and only if only blanks follow it |
| FilterParser.FilterApdu | rs_adapter/src/adapter/DNP3StreamReader.c:269-322 | a unit passes if and only if source, destination and type each match or are unrestricted |
| Numerals.StrtolSignedDecimal | rs_adapter/src/adapter/DNP3StreamReader.c:175-180 | every printed number is read back by `strtol` in base 0, or the nearest 64-bit number |
| Numerals.HexadecimalIsRead | rs_adapter/src/adapter/DNP3StreamReader.c:175-180 | `0x` and hexadecimal digits are read as the number they denote, up to the first other character |
| Numerals.OctalIsRead | rs_adapter/src/adapter/DNP3StreamReader.c:175-180 | a zero and octal digits are read as the number they denote in base 8, up to the first other character |
| Numerals.HexByteIsStrtoul | dnp3_message_bus/src/lcfg_static.cpp:787-795 | the byte of a hexadecimal escape is what `strtoul` in base 16 gives for its two bytes, whatever they are, cut to eight bits |
| Numerals.LeadingZeroIsOctal | rs_adapter/src/adapter/DNP3StreamReader.c:175-180 | `strtol` in base 0 reads decimal digits, with or without a sign, as the number they denote if and only if it fits a `long` and there is no leading zero or the number is below 8; it never reads a larger one |
| Numerals.StrtolIgnoresSpace | rs_adapter/src/adapter/DNP3StreamReader.c:175-180 | white space before and behind a numeral makes no difference to `strtol` |
| Numerals.NarrowNumeralExactly | dnp3_message_bus/src/MessageBusC.cpp:508-539 | a numeral stored in a 32-bit or 16-bit field keeps its number if and only if that fits and is not read as octal |
| ReaderQueue.Conservation | rs_adapter/src/adapter/DNP3StreamReader.c:16-79 | over any interleaving of arrivals with the steps of reads, what was handed out followed by what is still to come is exactly the conversion of the units that passed the filter, in order of arrival |
| ReaderQueue.StepKeepsInv | rs_adapter/src/adapter/DNP3StreamReader.c:34-64 | every atomic step keeps the account of finished, current and later units and stays within the arrays |
| ReaderQueue.RunNeverStuck | rs_adapter/src/adapter/DNP3StreamReader.c:34-64 | in every reachable state an enabled step can be taken without leaving the arrays |
| ReaderQueue.ReadGoesOn | rs_adapter/src/adapter/DNP3StreamReader.c:34-64 | in every reachable state a read under way has a next step, which brings it closer to its end, and arrivals do not put it off |
| ReaderQueue.RemoveKeeps | rs_adapter/src/adapter/DNP3StreamReader.c:57-64 | removing from the back by position is not disturbed by units appended meanwhile |
| ReaderQueue.StreamReader.Read | rs_adapter/src/adapter/DNP3StreamReader.c:16-79 | a read converts all queued units in order, drops the failed ones, and empties the queue |
| ReaderQueue.StreamReader.OnApdu | rs_adapter/src/adapter/DNP3StreamReader.c:233-257 | appends a copy of the unit to the queue |
| ReaderQueue.Notify | dnp3_message_bus/src/MessageBus.cpp:340-348 | every listener whose filter passes gets the unit once, the others are unchanged |

## Left out

- Allocation failures, `free`, destructors and the text of error messages.
- `read` errors: a negative result of `read`, which the code does not notice.
- The line and column stored with a token, and the wrap-around of these `short`
  fields; the scanner's own position is modelled without a bound.
- LcfgTreeNodes.TreeNode.Insert: the children of a node are a sequence of node references, so the sibling links of the original list and the walk to its end are not modelled.
- MessageBuses.MessageBus.NewConnection: the bus and the proxies hold their connections in sequences; the array macros behind them are proved in GrowArrays, and creating the protocol stack is taken to succeed. The branch for a refused append, which an array without a maximum never takes, and the bus registering itself as a listener are left out.
- MessageBuses.MessageBus.DeleteConnection: reading the array at an index outside it, which the code does before its range check, is not modelled.
- Deleting a proxy: its connections would stay on the bus with a dangling pointer.
- Loader.ExtractProxyConfig: the physical ports and the log level of a proxy are not extracted, because they are plain copies of further properties.
- ReaderQueue.StepKeepsInv: each array operation is one step, so the unlocked race inside an operation is not modelled.
- The bounds of the 1024-byte key buffers, of the loader and of the filter parser.
- Sending through the protocol stack after the connection is chosen; the
  conversion of units to samples, which is a parameter of the reader.
- `lcfgx_tree_dump`, the keyword matchers for port types, parity and log levels,
  the writer side and the plug-in glue of the Routing Service.
