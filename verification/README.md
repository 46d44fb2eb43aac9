# embloader: verified models of the boot loader's algorithms

embloader is a UEFI boot loader. Around the firmware calls it carries several self-contained algorithms. This
project models them in Dafny and proves what they are for:

* **Regular expressions** (`Regexp*.dfy`): a grammar of patterns, the parser, size count, compiler and backtracking
  machine. Tokens can be read as a pattern in at most one way; it is proved when the parser reads them so and when
  it loses something. Compilation preserves the ordered-choice meaning of a tree, that meaning is tied to the
  language of the pattern as it is written, from the tokens to the answer of a search; the machine terminates, and
  every program fits the memory counted for it.
* **Log store** (`Log*.dfy`): a bounded queue delivered to many failing backends. Over every run the items
  delivered to a backend are a prefix of the queue, and the fast flush equals the full flush.
* **Unicode** (`Encode*.dfy`): the UTF-8 and UTF-16 converters with bounded buffers, replacement and transfer
  rules, and the callers that convert in chunks.
* **Configuration tree** (`Config*.dfy`): an ordered value as specification, and nodes in memory with parent links,
  keys and indices. Merging refines a functional deep merge and is all or nothing; lookup with creation, setting a
  value and reading and writing `.conf` texts refine functions on values, with a round trip between tree and text.
  A parameter `plenty` says that memory does not run out; without it every allocation may fail.
* **AArch64 memory map and kernel placement** (`Aarch64.dfy`): canonical output and the least aligned base.
* **Boot order** (`Version.dfy`, `Menu.dfy`, `List.dfy`, `ListSort.dfy`): version comparison as an order on
  tokens, ranks, and the bubble sort over a doubly linked list.
* **SMBIOS walk** (`Smbios.dfy`) and **path variables** (`Variables.dfy`, `ResolvePaths.dfy`).

Code that changes memory step by step is a method with loops, over arrays or classes, proved equal to a function
of its input; the theorems are about these functions. Code that only computes is a function. What the source
reads from outside (firmware tables, whether an allocation or a write succeeds, `strtod`, case folding tables)
is a parameter or an arbitrary choice.

Where a promise does not hold of the code for all inputs, the code is kept, a lemma gives an input that shows it,
and a theorem states the condition under which it holds:

* `RegexpDrops.TreeExactly` with `RegexpDrops.EmptyGroupDrops` and `RegexpDrops.EmptyGroupRefused`: the parser makes
  a pattern's tree exactly when the pattern is in order and no item that is nothing stands beside another one;
  `a(?:)` becomes the empty pattern, and `(?:)a` is refused. `RegexpLost.ReadsRightExactly` says the same of all tokens.
* `RegexpLost.LostExactly` with `RegexpLost.OpenGroupIsLost`: an error of the parser is lost exactly when it has met
  one and still comes to the end of the tokens; `(a` compiles. `RegexpLost.NothingLost` says on which tokens none is.
* `RegexpGroups.StraysExactly` with `RegexpGroups.TenthGroup`: the parser reads its table of groups past the end
  exactly at a back-reference `\10` with nine groups opened; `()()()()()()()()()\10` is such a pattern.
* `Regexp.FieldExactly`: the operator `regexp`, documented as a match against a pattern (`docs/zh/embloader.md:103`),
  answers the contrary for every pattern that compiles, because execution returns 0 for a match and the operator
  asks for 1.
* `RegexpMeaning.IgnoresCase`: a match with REG_ICASE ignores the case of a literal exactly if the pattern was compiled
  with it too, or the literal is what it folds to; otherwise it does not even match itself.
* `Menu.BootOrder` with `Menu.MissingMachineCycle` and `Menu.LargestOffset`: entries stand in the order of the entry
  comparison exactly when that is a strict weak order on them and the configured offset leaves room: only the largest
  rank may reach the largest priority there is, because priorities saturate.
* `ResolvePaths.ResolvesProduct` with `ResolvePaths.NestedPattern` and `ResolvePaths.JoinedPattern`: the results are
  the product if every pattern occurs only at its references when its turn comes; where values bring no opening brace,
  exactly then; where they do, the results can be right by chance (`ResolvePaths.NestedByChance`).
* `Smbios.LoadEnds`: the load loop returns for ever to structures it has loaded unless every handle leads back to
  its own structure.
* `ConfigTree.MergeAssociative` with `ConfigTree.NotAssociative`, `ConfigRoute.PathGetFindsNode` with
  `ConfigPath.DottedKeyLost`, and `EncodeChunks.ChunksExactly` with `EncodeChunks.StuckWithoutRoom`.

The comment of `embloader_sort_menu_loaders` says that higher priorities come first; the code sorts them upwards,
and so does the model (`embloader/src/menu/menu.c:136-153`). The comment of `verncmp` gives a greatest length to
compare; the code stops only between tokens, and `Version.RoundsExact` says where.

## Model

| member | source | states |
|---|---|---|
| RegexpParse.Parser.constructor | embloader/ext/regexp/regexp.c:857-861 | a parse starts with no arena node taken and one group, the whole match |
| RegexpParse.Parser.NewNode | embloader/ext/regexp/regexp.c:453-464 | a node is only ever taken from within the arena of two nodes a token |
| RegexpParse.Parser.MakeRep | embloader/ext/regexp/regexp.c:480-492 | an unbounded repeat of a tree that can match nothing is an error and gives no tree, any other repeat is built |
| RegexpParse.Parser.ParseAtom | embloader/ext/regexp/regexp.c:512-589 | tree, place, groups and error are what `ReadAtom` says, a missing tree after an error taken for the empty one, and the table of groups read only below its end; two nodes a token were enough on every run, errors included |
| RegexpParse.Parser.ParseRep | embloader/ext/regexp/regexp.c:591-614 | the same for an atom with its quantifier, lazy or greedy, and `ReadRep` |
| RegexpParse.Parser.ParseCat | embloader/ext/regexp/regexp.c:616-635 | the loop that splices a right-leaning tree from left to right is the recursion of `ReadCat`, and stops where an item gives no tree |
| RegexpParse.Parser.ParseAlt | embloader/ext/regexp/regexp.c:637-648 | the loop over alternatives is `ReadAlt`, associating to the left |
| RegexpGrammar.WrittenOnce | embloader/ext/regexp/regexp.c:512-648 | tokens can be read as a pattern of the grammar in at most one way |
| RegexpRead.CompleteA | embloader/ext/regexp/regexp.c:637-648 | wherever a pattern in the parser's order is written, the parser reads it whole, from any state, and makes the tree and the groups that it makes of such patterns; in the parser's order no item that is nothing stands in front of another one, and repeats are judged by the parser's trees |
| RegexpRead.SoundA | embloader/ext/regexp/regexp.c:637-648 | whatever the parser reads without an error is a pattern in the parser's order, with that tree and those groups |
| RegexpRead.ReadExactly | embloader/ext/regexp/regexp.c:864-876 | the parser comes to the end of the tokens, without an error and without leaving its table of groups, exactly when a pattern in the parser's order is written there |
| RegexpDrops.TreeExactly | embloader/ext/regexp/regexp.c:616-635 | of every written pattern: what the parser takes without an error is in order, told from the ordinary trees in which an empty item contributes nothing; and the parser takes the pattern and makes its ordinary tree exactly when the pattern is in order and no item that is nothing stands beside another one, told from the tokens |
| RegexpDrops.OrderA | embloader/ext/regexp/regexp.c:616-635 | what is in the parser's order is in order: the parser's tree can match nothing wherever the ordinary one can |
| RegexpDrops.TidyWritten | embloader/ext/regexp/regexp.c:616-635 | whether an item that is nothing stands beside another one, told from the pattern, is the same told from the tokens alone |
| RegexpDrops.EmptyGroupDrops | embloader/ext/regexp/regexp.c:619-634 | a character in front of an empty group is lost with it |
| RegexpDrops.EmptyGroupRefused | embloader/ext/regexp/regexp.c:619-622 | a character behind an empty group makes the parser stop there, although the pattern is in order |
| RegexpGroups.NumbersA | embloader/ext/regexp/regexp.c:546-554 | groups are numbered by the groups opened before them |
| RegexpGroups.StraysExactly | embloader/ext/regexp/regexp.c:533-543 | at a back-reference the table of groups is read past its end exactly if this is the tenth group and nine have been opened |
| RegexpGroups.StaysInside | embloader/ext/regexp/regexp.c:533-543 | on tokens without a back-reference to a tenth group behind nine opening brackets the parser never reads past its table |
| RegexpGroups.GoesAstray | embloader/ext/regexp/regexp.c:533-543 | behind items in the parser's order that make nine groups such a back-reference does lead it there |
| RegexpGroups.TenthGroup | embloader/ext/regexp/regexp.c:533-543 | nine empty groups and a back-reference to a tenth |
| RegexpLost.WrittenExactly | embloader/ext/regexp/regexp.c:512-648 | a pattern is written in the tokens exactly when there was no lexical error, brackets match, and quantifiers stand behind what they repeat |
| RegexpLost.ReadsRightExactly | embloader/ext/regexp/regexp.c:834-876 | for all tokens: the parser reads the pattern that is written there, with its ordinary tree, exactly when brackets match, quantifiers are placed, the pattern is in order, and no item that is nothing stands beside another one |
| RegexpLost.LostExactly | embloader/ext/regexp/regexp.c:864-876 | an error goes unnoticed exactly when the parser has met one and the lookahead is still the end |
| RegexpLost.NothingLost | embloader/ext/regexp/regexp.c:864-876 | none does where brackets match, quantifiers are placed, the pattern is in order, and no item that is nothing stands beside another one |
| RegexpLost.OpenGroupIsLost | embloader/ext/regexp/regexp.c:546-560 | an open group in front of the end is taken for the empty pattern |
| RegexpCompile.Reprog.Compile | embloader/ext/regexp/regexp.c:717-832 | compiling appends exactly the code the tree's layout predicate describes, of the length `Len`, and touches nothing before it |
| RegexpCompile.Reprog.CompileAlt | embloader/ext/regexp/regexp.c:732-740 | split and jump are patched to the two branches and to the end |
| RegexpCompile.Reprog.CompileRep | embloader/ext/regexp/regexp.c:742-783 | the mandatory copies, then optional copies, a loop, or a split back into the last copy |
| RegexpCompile.Reprog.CompileLook | embloader/ext/regexp/regexp.c:797-810 | a lookahead names its own code and what follows it |
| RegexpCompile.EmittedFrame | embloader/ext/regexp/regexp.c:706-715 | code emitted later, or patched elsewhere, leaves the code of a tree what it was |
| RegexpCompile.SizeBound | embloader/ext/regexp/regexp.c:668-704 | the code is never longer than `count` says, and exactly as long if and only if no repeat has a lower but no upper bound |
| RegexpStops.NonEmptyStops | embloader/ext/regexp/regexp.c:466-478 | code of a tree that `empty` rejects cannot be passed through without eating a character |
| RegexpStops.TreeStops | embloader/ext/regexp/regexp.c:480-487 | from every address of a well-formed tree's code, runs that eat nothing leave the code or stop after finitely many steps |
| RegexpMachine.DepthFalls | embloader/ext/regexp/regexp.c:975-1124 | every step that eats nothing lowers the depth of the program counter, which together with the remaining input bounds the run |
| RegexpMachine.Match | embloader/ext/regexp/regexp.c:975-1124 | the recursive loop terminates and computes `Run`: success, and the captures as written on the winning path |
| RegexpCorrect.Progress | embloader/ext/regexp/regexp.c:466-478 | every outcome of a tree that `empty` rejects lies further on in the text |
| RegexpCorrect.Correct | embloader/ext/regexp/regexp.c:717-832 | compilation preserves meaning: running the code of a tree, then whatever follows, is trying the tree's outcomes in order of preference on what follows, for greedy and lazy repeats, alternation, captures and both lookaheads |
| RegexpMeaning.IgnoresCase | embloader/ext/regexp/regexp.c:1022-1032 | a literal matches whatever differs in case alone exactly if REG_ICASE was given at compilation as well, or the literal is what it folds to |
| RegexpAnswer.CaseIgnored | embloader/ext/regexp/regexp.c:1022-1058 | with REG_ICASE at compilation or at execution, texts that agree up to case get the same answer and the same captures |
| RegexpAnswer.EitherSide | embloader/ext/regexp/regexp.c:1126-1139 | but for the folding of literals it does not matter on which side a flag is given |
| RegexpLanguage.Language | embloader/ext/regexp/regexp.c:717-832 | the outcomes of a tree end exactly where the declarative language of the tree says a match can end |
| RegexpLanguage.LanguageLook | embloader/ext/regexp/regexp.c:797-810 | a lookahead succeeds where its tree has some match, or none, and eats nothing |
| RegexpLanguage.RepMatches | embloader/ext/regexp/regexp.c:742-783 | mandatory copies followed by the rest are between the least and the most number of copies, or at least the least |
| RegexpLanguage.EmptyExactly | embloader/ext/regexp/regexp.c:466-478 | without tests of a position, lookaheads and back-references, a tree matches the empty text exactly if `empty` says so |
| RegexpSpelled.SpelledA | embloader/ext/regexp/regexp.c:512-648 | the tree of a pattern matches exactly what the pattern says, spelled out over its concrete syntax, the text and the flags of both sides: alternatives, sequences, `+` at least one copy, `*` any number, `?` at most one, braces from the least to the most, lookaheads, `^` and `$` with and without newline and notbol, word boundaries, literals and classes with and without case |
| RegexpSpelled.FewestFirst | embloader/ext/regexp/regexp.c:591-614 | of the outcomes of a quantified atom one with the fewest copies comes first behind a second `?`, and last without it |
| RegexpSpelled.OptionalFirst | embloader/ext/regexp/regexp.c:591-614 | an optional atom is tried before it is left out, or the other way round if lazy |
| RegexpSpelled.FirstAlternative | embloader/ext/regexp/regexp.c:732-740 | the first alternative that matches is preferred, and its preferred outcome |
| RegexpCaptures.GroupHolds | embloader/ext/regexp/regexp.c:1112-1119 | after a match a group that was recorded holds a part of the text that its body matches, and a part of the whole match if it stands outside lookaheads |
| RegexpCaptures.GroupRecorded | embloader/ext/regexp/regexp.c:1112-1119 | a group that there is no way around has been recorded |
| RegexpSearch.ProgramSound | embloader/ext/regexp/regexp.c:891-900 | the whole program with its search loop is one the machine terminates on |
| RegexpTargets.TreeInside | embloader/ext/regexp/regexp.c:717-832 | no jump, split or lookahead in the code of any tree, with back-references too, leads outside the program |
| RegexpSearch.ProgramInside | embloader/ext/regexp/regexp.c:891-900 | nor does any in the whole program with its search loop |
| RegexpSearch.RunSearches | embloader/ext/regexp/regexp.c:891-900 | running the program from the start tries one start position after the other |
| RegexpSearch.KeepsWhole | embloader/ext/regexp/regexp.c:897-899 | no group of the pattern overwrites the start of the whole match |
| RegexpSearch.SearchLeftmost | embloader/ext/regexp/regexp.c:1126-1139 | the search succeeds exactly if some match starts somewhere, and reports the leftmost start with the preferred outcome there |
| Regexp.Comp | embloader/ext/regexp/regexp.c:834-906 | unless the parser has left its table of groups: a program exactly when the parser comes to the end of the tokens and six instructions more than `count` says are within the limit; it is the search loop around the code of the parser's tree, nothing leads out of it, and its length is within that count |
| Regexp.CompilesExactly | embloader/ext/regexp/regexp.c:834-906 | that is so exactly when a pattern in the parser's order is written in the tokens and its program fits, or an error has been lost |
| Regexp.Exec | embloader/ext/regexp/regexp.c:1126-1139 | 0 exactly when some part of the text matches; then group 0 is the leftmost match in order of preference and the captures are those of that outcome, for the flags of both sides |
| Regexp.FindsPattern | embloader/ext/regexp/regexp.c:834-1139 | from the tokens to the answer: a pattern without back-references that the parser gets right is found exactly where some part of the text is what the pattern says, and the match reported is such a part with none further left |
| Regexp.MatchOnce | embloader/ext/regexp/regexp.c:915-923 | what execution returned, which is 1 for no match, or 0 for a pattern that does not compile |
| Regexp.FieldMatches | embloader/src/main/match.c:43-44 | the operator `regexp` on a field answers whether that was 1 |
| Regexp.FieldExactly | docs/zh/embloader.md:103 | the operator answers the contrary of what it should for every pattern that compiles, and what it should exactly if the pattern does not compile and does not match |
| Log.SumEvict | embloader/src/log/store.c:69-81 | evicting leaves a queue whose recorded size is that of what is retained and within the limit |
| LogRuns.FastIsFull | embloader/src/log/store.c:128-178 | scanning only the unflushed suffix makes exactly the deliveries, marks, flags and size of a full flush |
| LogRuns.EvictFewest | embloader/src/log/store.c:69-81 | eviction takes the fewest oldest items that bring the queue within its limit |
| LogRuns.AppendExactly | embloader/src/log/store.c:91-102 | an append succeeds exactly if the item is smaller than the limit and memory suffices; the item then stands last with its size, a new number and no marks, behind the old items without the fewest oldest ones that had to go |
| LogRuns.AppendKeeps | embloader/src/log/store.c:91-102 | appending keeps the prefix invariant, the flags' truth and the size |
| LogRuns.FlushKeeps | embloader/src/log/store.c:128-148 | a flush with failing writes and failing allocations keeps the invariant |
| LogRuns.CreateKeeps | embloader/src/log/backend.c:98-103 | adding a backend invalidates flags, catches up and keeps the invariant |
| LogRuns.ForgetKeeps | embloader/src/log/store.c:57-67 | removing a backend erases its marks, flags again and keeps the invariant |
| LogRuns.StepKeeps | embloader/src/log/store.c:35-178 | every step of the log keeps the invariant |
| LogRuns.Reachable | embloader/src/log/store.c:35-178 | after every run, for every backend, the delivered items are a prefix of the queue, and the fast flush is the full flush |
| LogDelivery.DeliveredInOrder | embloader/src/log/store.c:35-47 | over every unforced run each backend receives items in order and at most once, despite failures, eviction and changing backends |
| LogDelivery.CatchesUp | embloader/src/log/store.c:155-178 | once writes succeed, one fast flush delivers everything retained to everyone |
| LogDelivery.FlushSends | embloader/src/log/store.c:128-148 | with working writes a flush sends to every backend, in order, what it has not received; a forced one sends everything again |
| LogDelivery.NobodyThere | embloader/src/log/store.c:20-33 | without a backend no item counts as flushed |
| LogDelivery.CreateSends | embloader/src/log/backend.c:98-103 | with working writes a new backend comes last and has received all retained items in order |
| LogStore.Store.WriteItem | embloader/src/log/store.c:35-47 | the mark is set before the write and taken back if the write fails and it was new |
| LogStore.Store.Flush | embloader/src/log/store.c:128-148 | the nested loops change the store as the full flush step says |
| LogStore.Store.FlushNew | embloader/src/log/store.c:155-178 | the loops over the suffix change the store as the fast flush step says |
| LogStore.Store.EvictOldest | embloader/src/log/store.c:69-81 | the loop changes the store as the eviction step says |
| LogStore.Store.AppendNew | embloader/src/log/store.c:91-102 | evict, refuse what is too large, append, evict again; success exactly if the item is smaller than the limit and memory suffices, and the queue is then as stated for appends |
| LogStore.Store.CreateNew | embloader/src/log/backend.c:77-107 | the new backend is listed, all flags fall, and it is offered the queue |
| LogStore.Store.DestroyBackend | embloader/src/log/backend.c:116-125 | the backend leaves the list and every item's marks |
| LogStore.Store.FlushTo | embloader/src/log/backend.c:51-64 | one backend is offered the queue from the front, and each item offered is flagged at once |
| Encode.FirstExact | embloader/src/encode/utf8_utf16.c:53-95 | the decoder takes a code point exactly when it is a scalar value whose shortest encoding stands in front, and takes exactly that encoding |
| Encode.GrammarExact | embloader/src/encode/utf8_utf16.c:57-95 | the UTF-8 decoder accepts exactly the characters of section 4 of RFC 3629, the UTF-16 decoder those of sections 2.1 and 2.2 of RFC 2781 |
| EncodeOrder.Order8 | embloader/src/encode/utf8_utf16.c:53-95 | code points compare as their UTF-8 bytes do |
| EncodeOrder.Order16 | embloader/src/encode/utf8_utf16.c:171-192 | above 0xFFFF they compare as their surrogate pairs do |
| EncodeOrder.GoodStep | embloader/src/encode/utf8_utf16.c:105-123 | a character in front gives its other encoding, then the conversion of the rest |
| EncodeOrder.BadStep | embloader/src/encode/utf8_utf16.c:96-104 | anything else gives a question mark for one unit and a report, or ends a strict conversion |
| EncodeOrder.EndStep | embloader/src/encode/utf8_utf16.c:31-36 | a conversion ends in front of a terminator or at the end |
| EncodeOrder.RuleStep | embloader/src/encode/encode.c:17-46 | the first rule whose text stands in front decides, whatever else stands there |
| Encode.Resume | embloader/src/encode/utf8_utf16.c:105-123 | what a full buffer left over can be converted later: both parts make up the whole conversion |
| Encode.Greedy | embloader/src/encode/utf8_utf16.c:105-109 | a conversion reports a full buffer only in front of a piece that is longer than the room left |
| Encode.FitsWhole | embloader/src/encode/utf8_utf16.c:31-123 | a buffer that could hold the whole result gets it |
| EncodeText.Transcodes | embloader/src/encode/utf8_utf16.c:17-124 | from the one encoding of any text of scalar values the converter makes the other encoding of it |
| EncodeText.RoundTrip | embloader/src/encode/utf8_utf16.c:17-237 | UTF-8 to UTF-16 to UTF-8, and the converse, are the identity on every well-formed text without a terminator |
| EncodeText.StrictAccepts | embloader/src/encode/utf8_utf16.c:96-104 | the strict converter succeeds on exactly the well-formed texts |
| EncodeText.WritesText | embloader/src/encode/utf8_utf16.c:96-116 | whatever the source holds, the output is well formed: it encodes some text of scalar values without a terminator |
| EncodeText.LenientFinishes | embloader/src/encode/utf8_utf16.c:194-202 | with replacement the converter always reaches the end of the text |
| EncodeText.LengthBound | embloader/src/encode/simple.c:25-28 | no text, valid or not, grows by more than the wrappers allow for |
| EncodeConvert.ProcTransfer | embloader/src/encode/encode.c:17-46 | the first matching rule is applied if its replacement fits; a malformed rule before it is an error |
| EncodeConvert.Utf8ToUtf16 | embloader/src/encode/utf8_utf16.c:17-124 | the loop delivers the bounded conversion, a terminator, and leaves the rest of the buffer alone |
| EncodeConvert.Utf16ToUtf8 | embloader/src/encode/utf8_utf16.c:136-237 | the same, with half a unit at the end treated as invalid |
| EncodeConvert.CopyConvert | embloader/src/encode/encode.c:56-84 | copying with rules unit by unit, and without rules as one bounded copy, are the same bounded conversion |
| EncodeConvert.Utf8String | embloader/src/encode/simple.c:16-36 | the allocated buffer always suffices: the result is the whole conversion unless memory or the address space runs out |
| EncodeConvert.Utf16String | embloader/src/encode/simple.c:47-67 | the same for UTF-16 |
| EncodeChunks.Progress | embloader/src/encode/utf8_utf16.c:105-109 | a buffer with room for a full character and every replacement always makes progress |
| EncodeChunks.ChunksExactly | embloader/src/encode/utf8_utf16.c:105-123 | chunked conversion equals one conversion into an unlimited buffer exactly when every step of the text fits into the buffer; otherwise it ends for want of room |
| EncodeChunks.ChunksAreWhole | embloader/src/encode/utf8_utf16.c:119-123 | with a roomy buffer, resuming until nothing is left gives, for every text, the same text, source used, status and report as one conversion into an unlimited buffer, with rules included |
| EncodeChunks.LogFileWrite | embloader/src/log/backends/file.c:105-137 | if the file works, succeeds exactly on well-formed text; whenever it succeeds it has written the whole conversion; otherwise, failing writes included, a beginning of it |
| EncodeChunks.ConsoleWrite | embloader/ext/separate/newlib/uefi.c:164-203 | what was shown and the conversion of the bytes not counted make up the whole conversion, whatever output fails; if none does, all is shown up to the first terminator, and the count is the bytes before it |
| EncodeChunks.RuleIsLineEnds | embloader/ext/separate/newlib/uefi.c:176-182 | replacing line feeds by rule is replacing them in the source first: none hides inside a character |
| ConfigTree.GetPut | embloader/src/configfile/map.c:50-77 | after a set, the key holds the new tree and every other key what it held |
| ConfigTree.MergeEntriesIs | embloader/src/configfile/merge.c:151-173 | merging two maps gives the target's keys in order, then the new keys in theirs, and under a shared key the merge of both |
| ConfigTree.MergeItems | embloader/src/configfile/merge.c:151-173 | merged arrays hold the items of the target and then those of the source; where kinds differ the source takes the place |
| ConfigTree.MergeWellFormed | embloader/src/configfile/merge.c:138-175 | merging keeps keys unique at every level |
| ConfigTree.MergeAssociative | embloader/src/configfile/merge.c:138-175 | merging is associative on exactly the trees where no other kind of tree stands between two maps or two arrays that differ when merged |
| ConfigTree.MergeAbsorbed | embloader/src/configfile/merge.c:141-173 | merging a tree into another gives just that tree exactly when its maps start with the other's keys and no array item would remain |
| ConfigTree.AgreeBridged | embloader/src/configfile/merge.c:141-144 | trees whose kinds agree at shared paths meet that condition |
| ConfigTree.NotAssociative | embloader/src/configfile/merge.c:141-150 | three trees on which merging is not associative |
| ConfigTree.MergeNothing | embloader/src/configfile/merge.c:151-173 | an empty map is neutral on both sides |
| ConfigNode.ArrayFixup | embloader/src/configfile/array.c:79-88 | every child of an array carries its position |
| ConfigNode.ArrayAppend | embloader/src/configfile/array.c:61-69 | the child comes last with its parent link and index, or nothing changes; it fails only for want of memory |
| ConfigNode.MapGet | embloader/src/configfile/map.c:14-24 | finds the child of a key exactly when the map has the key |
| ConfigNode.MapSet | embloader/src/configfile/map.c:50-77 | replaces the child of a key in place or adds it last, keeping links and unique keys, or nothing changes; it fails only for want of memory |
| ConfigMerge.Copy | embloader/src/configfile/merge.c:12-68 | a fresh detached tree with the same contents, or nothing, and that only when an allocation fails |
| ConfigMerge.ReplaceContents | embloader/src/configfile/merge.c:120-136 | a node takes over another's contents, children linked to it, and keeps its own parent, key and index |
| ConfigMerge.MergeInPlace | embloader/src/configfile/merge.c:138-175 | on success the tree in memory is well linked and holds the functional merge of both |
| ConfigMerge.MergeTrees | embloader/src/configfile/merge.c:188-200 | all or nothing: either the node holds the merge of both trees, or it and its tree are unchanged, whichever allocation fails, and it succeeds when none does |
| ConfigPath.ParseIndex | embloader/src/configfile/path.c:4-20 | the overflow-checked loop accepts exactly the decimal numbers up to half the address space |
| ConfigPath.ParseRender | embloader/src/configfile/path.c:22-43 | the text of a path parses back into its segments, for keys without delimiters |
| ConfigPath.ParseRefuses | embloader/src/configfile/path.c:22-43 | no path has an empty key at the front, a delimiter at the end, an index that is open, no number in range, or followed by a key |
| ConfigPath.DottedKeyLost | embloader/src/configfile/path.c:138-141 | a key with a dot is not found under the text written for it |
| ConfigPath.LookupPut | embloader/src/configfile/path.c:74-133 | looking up the path that was set finds what was set |
| ConfigPath.PutAtKeeps | embloader/src/configfile/path.c:45-60 | every node at a path that parts from it at the same kind of segment stays as it is |
| ConfigPath.PutAtValues | embloader/src/configfile/path.c:74-133 | the values of the new tree are exactly the one set and the old ones whose paths part from it at the same kind of segment |
| ConfigPath.SetThenLookup | embloader/src/configfile/path.c:178-191 | setting from a root succeeds exactly when the path is valid and the root of the right kind, and then the path looks up to the value |
| ConfigRoundTrip.SavesExactly | embloader/src/configfile/conf.c:156-271 | saving succeeds on exactly the trees the format can express |
| ConfigRoundTrip.SavedLoads | embloader/src/configfile/conf.c:58-128 | the lines saved for a subtree set all its values under its path, whatever text follows |
| ConfigRoundTrip.SavedText | embloader/src/configfile/conf.c:156-271 | the text saved is one line for each value, in order: the text of its path, an equals sign between spaces, and the value |
| ConfigReading.LineReads | embloader/src/configfile/conf.c:58-98 | a key, an equals sign and a value are read with any spaces around them |
| ConfigReading.LineSkipped | embloader/src/configfile/conf.c:60-63 | blank lines and comments change nothing |
| ConfigReading.NoEqualsRefused | embloader/src/configfile/conf.c:64-65 | a line without an equals sign is an error |
| ConfigReading.HalfRefused | embloader/src/configfile/conf.c:66-70 | a line without a key or without a value is an error |
| ConfigReading.LinesLoad | embloader/src/configfile/conf.c:108-128 | lines end with a line feed or a carriage return and are read one after the other |
| ConfigReading.QuotedReads | embloader/src/configfile/conf.c:71-75 | a quoted value is the text between the quotes, and an open quote is an error |
| ConfigReading.PlainReads | embloader/src/configfile/conf.c:76-90 | anything that is not quoted is a value of its own kind, or the line is an error |
| ConfigReading.IntegerReads | embloader/src/configfile/conf.c:12-30 | integers are read in decimal with a sign or without and in hexadecimal behind 0x, in either case, and those beyond 64 bits are errors |
| ConfigReading.WordReads | embloader/src/configfile/conf.c:42-56 | the words for true and false are read as such in any case, other texts stay as they are |
| ConfigConf.BuildsItself | embloader/src/configfile/path.c:178-191 | setting all values of a tree one after the other, from nothing, makes that very tree |
| ConfigRoundTrip.RoundTrip | embloader/src/configfile/conf.c:108-128 | whenever a tree without floating-point values can be saved, loading the text rebuilds it: maps, arrays, keys, values and order |
| ConfigPlace.PlugAround | embloader/src/configfile/merge.c:97-106 | what surrounds a place in the tree, links and contents, does not depend on the subtree there |
| ConfigPlace.Deeper | embloader/src/configfile/path.c:74-133 | going down to a child, the whole tree is the tree around the parent with one level around the child |
| ConfigReplace.Replace | embloader/src/configfile/merge.c:79-110 | the new node takes over place, parent link and key or index; the other children stay |
| ConfigReplace.ReplaceAt | embloader/src/configfile/merge.c:79-110 | anywhere in a tree: the whole tree is the old one with the new subtree in that place, well linked; only a root cannot be replaced |
| ConfigLookup.RequireType | embloader/src/configfile/path.c:45-60 | a node of the wrong kind gives way to an empty container exactly when creation is asked for and it has a parent |
| ConfigLookup.ArrayGet | embloader/src/configfile/array.c:12-24 | finds the child at an index exactly when the array is that long |
| ConfigLookup.ArrayExtend | embloader/src/configfile/array.c:129-145 | the array has at least the length, new items are null, and the rest of the whole tree stays |
| ConfigLookup.EnterKey | embloader/src/configfile/path.c:121-129 | the child of the key is found, or a null child is added last, anywhere in a tree |
| ConfigLookup.Walk | embloader/src/configfile/path.c:74-133 | the node reached stands where the whole tree is what `PutAt` makes of it; without creation nothing changes and a node is found exactly when the value lookup finds one; on failure the tree is whole and differs only by nodes made ready on the way |
| ConfigLookup.PlaceFound | embloader/src/configfile/path.c:74-133 | the way a path takes exists exactly when looking it up finds a tree |
| ConfigSet.ParsePlain | embloader/src/configfile/path.c:22-43 | a valid path text has only keys without delimiters and indices in range |
| ConfigSet.PathLookup | embloader/src/configfile/path.c:74-133 | the same for path texts; an invalid one changes nothing |
| ConfigSet.SetValue | embloader/src/configfile/path.c:178-191 | the whole tree in memory becomes the one with the value put at the path, exactly when the value model says so, unless memory runs out |
| ConfigSet.PathMapSet | embloader/src/configfile/map.c:89-94 | a detached tree is put at a path of a tree in memory |
| ConfigSet.GaveUpValues | embloader/src/configfile/path.c:74-133 | a call that gave up half way has added no value and lost none whose path parts from its own at the same kind of segment |
| ConfigRoute.PathGet | embloader/src/configfile/path.c:135-166 | following parent links writes the segments of the node's way from the root, cut to the buffer |
| ConfigRoute.PathTextIs | embloader/src/configfile/path.c:135-148 | for keys without delimiters this text is the path as text |
| ConfigRoute.RouteFinds | embloader/src/configfile/path.c:74-133 | the segments of a node lead to that node and no other |
| ConfigRoute.PathGetFindsNode | embloader/src/configfile/path.c:135-166 | the text written for a node leads lookup back to that very node exactly when no key on the way is empty or has a delimiter |
| ConfigArray.ArrayInsert | embloader/src/configfile/array.c:99-118 | the child comes before the one with the index and all are numbered again; nothing can be inserted behind the last |
| ConfigArray.ArraySet | embloader/src/configfile/array.c:157-166 | the array gets long enough and the child takes over the place, in a whole tree that is otherwise as before; behind the greatest index nothing is set |
| ConfigText.ConfParseLine | embloader/src/configfile/conf.c:58-98 | the pointer loops narrow a line to key and value as the specification trims it, and the value is set in the tree in memory |
| ConfigText.ConfLoadString | embloader/src/configfile/conf.c:108-128 | line after line into a new map in memory, which ends up holding what the value model loads, or nothing at the first bad line |
| ConfigText.Output.Append | embloader/src/configfile/conf.c:131-154 | the text is appended and terminated, the buffer doubled as needed, nothing before it lost |
| ConfigText.ConfSaveNode | embloader/src/configfile/conf.c:166-271 | the recursion over the nodes in memory appends exactly the saved text to the growing buffer |
| ConfigText.ConfSaveString | embloader/src/configfile/conf.c:280-291 | a map that can be saved yields its text, anything else nothing |
| Aarch64.CanonicalUnique | embloader/src/linux/aarch64.c:166-195 | two canonical maps that cover the same addresses are equal |
| Aarch64.OrderIrrelevant | embloader/src/linux/aarch64.c:147-197 | the map is the same for every permutation of the firmware's descriptors |
| Aarch64.LoadMemoryMap | embloader/src/linux/aarch64.c:105-197 | strictly increasing regions with gaps between them, covering exactly the addresses of the included descriptors; an error exactly when none is included or one wraps |
| Aarch64.Insert | embloader/src/linux/aarch64.c:166-177 | one step of the insertion sort: covered addresses and proper regions are kept while the sorted part grows |
| Aarch64.Merge | embloader/src/linux/aarch64.c:178-195 | the in-place merge makes sorted regions canonical and covers the same addresses |
| Aarch64.FindLegacyBase | embloader/src/linux/aarch64.c:227-241 | the least aligned address at which so many pages fit in one conventional descriptor, or none exactly when there is no such address, for every page count that can be addressed; for others the same with the size modulo 2^64 |
| Aarch64.PlaceKernel | embloader/src/linux/aarch64.c:250-291 | refused exactly if the file or the image, behind its offset, does not fit the address space in whole pages; otherwise the kernel gets the lowest aligned place with room for both in whole pages, or none exactly when there is none, and the bytes of the file and those of the image both lie in free memory |
| Aarch64.LegacyExactly | embloader/src/linux/aarch64.c:227-241 | for any page count: the answer is right for the size that was asked for exactly when that size does not wrap or nothing was found |
| Aarch64.WrappedPages | embloader/src/linux/aarch64.c:270-276 | the guard of the caller is needed: a page count it never passes, for which a place is found that is too small |
| Version.NumberOrder | embloader/src/lib/str-utils.c:259-266 | comparing by length and then as text is comparing values, at any length |
| Version.Order | embloader/src/lib/str-utils.c:240-287 | antisymmetric, transitive, and 0 exactly when the tokens agree |
| Version.RanksTell | embloader/src/lib/str-utils.c:250-284 | a tilde comes before the end, the end before words, and words before numbers |
| Version.TokensTell | embloader/src/lib/str-utils.c:259-278 | words compare by their characters and numbers by their values |
| Version.SharedText | embloader/src/lib/str-utils.c:246-285 | a common front does not matter where both versions go on with a separator or a tilde |
| Version.PreRelease | embloader/src/lib/str-utils.c:250-255 | a version text continued by a tilde is older than the text; continued by a dot it is newer unless a tilde or nothing follows |
| Version.TokensAppend | embloader/src/lib/str-utils.c:240-287 | the tokens of a text continued by a separator or a tilde are those of the text and then those of what follows |
| Version.Verncmp | embloader/src/lib/str-utils.c:240-287 | the loop compares the token sequences: tilde, then the end, then words, then numbers; with a length limit as many tokens of both as the limit reaches in the first version |
| Version.RoundsExact | embloader/src/lib/str-utils.c:246-248 | a limit reaches exactly the tokens that begin in front of it, and one more, or the end, where a separator stands right in front of it |
| Version.Vercmp | embloader/src/lib/str-utils.c:240-301 | a missing version comes before every other |
| ListSort.PassRemoves | embloader/src/lib/list.c:345-350 | a pass never adds pairs that are out of order and removes one unless no neighbours are, which bounds the passes |
| ListSort.SortedStable | embloader/src/lib/list.c:337-354 | sorting permutes, leaves no neighbours out of order, and never changes the order of two elements the sorter does not object to |
| ListSort.SortedOrdered | embloader/src/lib/list.c:337-354 | for a strict weak order no pair at all is out of order |
| List.Add | embloader/src/lib/list.c:26-41 | the other list comes behind the node and both ends are linked; at the end of a list only what follows the new node does, and what was in front of it is left pointing there |
| List.Insert | embloader/src/lib/list.c:51-65 | the other list comes in front of the node |
| List.Remove | embloader/src/lib/list.c:191-206 | the list closes up; a lone node is refused |
| List.Strip | embloader/src/lib/list.c:303-314 | the node leaves the list, and the pointer held stays in the list that remains |
| List.SwapNeighbor | embloader/src/lib/list.c:104-112 | two neighbours change places and the list stays well linked |
| List.SortPass | embloader/src/lib/list.c:344-350 | one pass over the links rearranges the nodes as `Pass` says |
| List.Sort | embloader/src/lib/list.c:337-354 | terminates for every asymmetric sorter and leaves one well-linked list in the order of `Sorted` |
| List.Reverse | embloader/src/lib/list.c:396-405 | the list is linked in reverse |
| Menu.Flip | embloader/src/sdboot/menu.c:167-192 | comparing two entries the other way round gives the opposite sign, for all entries |
| Menu.EntriesOrder | embloader/src/sdboot/menu.c:167-192 | on entries that set the same fields the comparison is a strict weak order |
| Menu.FieldsTell | embloader/src/sdboot/menu.c:167-192 | an entry comes first exactly if its fields say so: a sort key before none, then the smaller sort key, the smaller machine id and the newer version, then the newer name |
| Menu.UniformWeak | embloader/src/sdboot/menu.c:167-192 | so entries that all set the same fields are weakly ordered |
| Menu.MissingMachineCycle | embloader/src/sdboot/menu.c:180-187 | three entries, one without a machine id, that come before one another in a circle |
| Menu.RankOne | embloader/src/sdboot/menu.c:233-245 | the priority is the offset plus the number of entries ordered before, up to the largest number |
| Menu.Prepare | embloader/src/sdboot/menu.c:230-250 | all priorities, and an offset that puts automatic entries behind all of them |
| Menu.RanksCompare | embloader/src/sdboot/menu.c:230-250 | for all entries: ranks compare as the entries do exactly when the comparison is a strict weak order on them |
| Menu.SortMenu | embloader/src/menu/menu.c:136-153 | the menu becomes the stable ascending order of priorities |
| Menu.BootOrder | embloader/src/menu/menu.c:149-153 | the sorted menu has the same items with ascending priorities, items of equal priority as they were, and entries in comparison order exactly when the comparison is a strict weak order on them and no two ranks share a priority |
| Menu.FieldsOrder | embloader/src/menu/menu.c:149-153 | in the sorted menu an entry that comes first by its fields stands further up, where the order is weak and no two ranks share a priority |
| Menu.UniformFields | embloader/src/menu/menu.c:149-153 | so it is for entries that all set the same fields, if the offset leaves room for all |
| Menu.UniformOrder | embloader/src/menu/menu.c:149-153 | entries that all set the same fields stand in their order exactly when no two ranks share a priority |
| Menu.RoomApart | embloader/src/sdboot/menu.c:233-245 | no two do if the offset leaves room for as many priorities as there are entries |
| Menu.LargestOffset | embloader/src/sdboot/menu.c:233-245 | with the largest offset all entries have one priority, and entries that differ do not stand in order |
| Smbios.StructureEnd | embloader/src/smbios/base.c:152-178 | going from string to string finds the first two NULs in a row behind the formatted part, inside the table |
| Smbios.Walk | embloader/src/smbios/base.c:180-192 | steps to the next complete structure, and stops behind the end-of-table structure |
| Smbios.WalkEnumerates | embloader/src/smbios/base.c:180-192 | the walk visits exactly the structures of the recursive parse, in order, and then stops |
| Smbios.WalkSafe | embloader/src/smbios/base.c:152-192 | every structure visited lies in the table, the next one further on, and none behind the end-of-table structure |
| Smbios.RenderedEnd | embloader/src/smbios/base.c:152-178 | wherever a structure stands as sections 6.1.2 and 6.1.3 of DSP0134 write it, its end, type, handle and strings are found |
| Smbios.ParsesRendered | embloader/src/smbios/base.c:180-192 | a table written structure by structure is parsed into exactly those structures, whatever stands behind an end-of-table structure |
| Smbios.GetString | embloader/src/smbios/base.c:221-238 | the string of a number counted from one, or nothing past the last one |
| Smbios.GetByType | embloader/src/smbios/base.c:194-209 | the first structure of a type behind the first one with a handle |
| Smbios.ByTypeExactly | embloader/src/smbios/base.c:194-209 | that structure, told from the bytes of types and handles: the first of its type behind the first one with the handle |
| Smbios.LoadTable | embloader/src/smbios/base.c:308-343 | where every handle leads back to its own structure, each structure of the type is loaded once, in table order |
| Smbios.LoadEnds | embloader/src/smbios/base.c:308-343 | the loop comes to an end exactly when every structure of the type leads back to itself |
| Variables.ReplacedLength | embloader/src/main/resolve.c:119-129 | each replacement changes the length by the same amount |
| Variables.ResultLengthIs | embloader/src/main/resolve.c:119-133 | the length computed beforehand, with its overflow checks, is the length of the result |
| Variables.ReplaceVariable | embloader/src/main/resolve.c:96-154 | every occurrence is replaced, and the buffer is filled exactly |
| ResolvePaths.ResolveRecursive | embloader/src/main/resolve.c:156-189 | the loop over values, which stops if nothing was replaced, appends what the recursion says, and fails only where a getter does, memory runs out or a path grows too long |
| ResolvePaths.ResolveFails | embloader/src/main/resolve.c:156-189 | with memory, expansion fails exactly when the getter of some variable does |
| ResolvePaths.PiecesText | embloader/src/main/resolve.c:156-189 | every path, with stray braces and unknown names as text, is made of its references and the characters between them |
| ResolvePaths.PiecesRefs | embloader/src/main/resolve.c:156-189 | a path refers to a variable as often as the pattern of the variable occurs in it |
| ResolvePaths.ResolvesProduct | embloader/src/main/resolve.c:156-189 | for every path and all values: the results are the path with every reference replaced, for the ordered product of the values of the variables in it, if for every choice of earlier values the pattern of a later variable occurs only at its references; where values bring no opening brace, exactly then |
| ResolvePaths.PlainOnlyRefs | embloader/src/main/resolve.c:156-189 | that is always so where neither path nor values have an opening brace besides the references |
| ResolvePaths.ProductsExact | embloader/src/main/resolve.c:166-188 | every combination of values is in the product and nothing else |
| ResolvePaths.ProductsCount | embloader/src/main/resolve.c:166-188 | variables that are not mentioned or have no values do not multiply the results |
| ResolvePaths.ProductsInOrder | embloader/src/main/resolve.c:166-188 | results with earlier values of a variable come before those with later ones |
| ResolvePaths.NestedPattern | embloader/src/main/resolve.c:174-183 | a value that brings the pattern of a later variable is expanded again |
| ResolvePaths.NestedByChance | embloader/src/main/resolve.c:174-183 | where values bring opening braces, the results can be the product all the same |
| ResolvePaths.JoinedPattern | embloader/src/main/resolve.c:174-183 | a replaced value can complete a pattern around its reference, and then the results are not the product |
| ResolvePaths.DependsOnLoader | embloader/src/main/resolve.c:86-94 | true exactly when the path mentions a variable that depends on the loader |

## Left out

- Back-references in the meaning, termination and search theorems: a back-reference to an unset group matches
  empty text although `empty` judges it by the group. They are parsed, counted and compiled.
- The lexer of the regular expressions: the parser works on tokens. Case folding is a function of one character.
  `regexp_match` and allocation failures in `regexp_comp`.
- Regexp.Exec: for patterns without back-references.
- Regexp.Comp: promises nothing of patterns at which the parser has read past the end of its table of groups, because
  what stands behind it in memory is not known.
- The memory of the parser after an error: `die` gives it back and the parser goes on to use it; the model takes it
  to keep its contents.
- Re-entrant logging from a backend writer.
- LogStore.Store.CreateNew: the message that `log_backend_create` logs about itself is an append of its own.
- Log items and backends are known by numbers, not by addresses; an item cannot be appended twice.
- The byte order of UTF-16 units in memory: a source is a sequence of units, with half a unit at the end of an
  odd-sized one. Two-stage conversion through UTF-8 is not used by the two encodings there are.
- What a failed write to the log file leaves behind is counted in whole UTF-16 units, and a failed output to the
  console has shown nothing of its piece.
- Freeing configuration nodes: a node that left its tree is not looked at again.
- ConfigMerge.MergeInPlace: the two trees do not overlap, which holds because `confignode_merge` works on a copy.
- ConfigLookup.ArrayExtend: does not model that `list_count` gives up at INT_MAX items.
- ConfigLookup.Walk: works on the segments of a valid path; the source splits off one segment of the text at a time
  and validates the rest again.
- Floating-point numbers in `.conf` files: reading and writing them are parameters about which nothing is known.
- JSON and YAML loaders and savers, the conversions between value types, and the iterators over children.
- Kernels that can be placed anywhere, the magic number of a kernel, and copying it to its place.
- The firmware calls around the memory map, and the retry when the map grows while it is fetched.
- Storing the priorities into menu items and joining the pending list: `Menu.Published` states what they leave behind.
- The naming of loaded SMBIOS structures and the fields that are read from them; the search by handle alone.
- Smbios.LoadTable: requires that every handle leads back to its structure, because otherwise the loop has no end.
- Device tree overlays, device paths, EFI variables, menus on screen, and the keyword tables of the entry parsers.
