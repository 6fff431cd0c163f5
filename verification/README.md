# Verification of vx68k

vx68k emulates an X68000 computer and the Human68k DOS that runs on it. This project models its
stateful cores in Dafny and proves what they promise:

- **Plural expressions** (`Plural*.dfy`): the bison parser for gettext plural expressions. The packed
  tables encode exactly one LR automaton; the automaton accepts exactly the sentences of the grammar
  and builds the one derivation the precedences allow; printing any expression with the fewest
  parentheses and any spacing, up to whatever ends the input, then scanning and parsing, gives it back;
  what each character is and what each construct means is told apart from the scanner and the grammar.
- **getopt** (`GetoptSpec.dfy`, `GetoptLaws.dfy`, `GetoptPrefix.dfy`, `Getopt.dfy`): the resumable scanner
  with its in-place exchange. What each form of an option hands over is told by its characters. A whole
  PERMUTE scan leaves a stable partition of the arguments; permuting is scanning the sorted arguments, and
  exactly when it is not. The other orderings leave the arguments alone, and a prefix of the option string
  disturbs them exactly in the stated cases.
- **DOS memory** (`HeapModel.dfy`, `HeapPlaces.dfy`, `HeapForest.dfy`, `HeapWords.dfy`, `Allocator.dfy`,
  `MainMemory.dfy`): the allocator as it works on header words in big-endian memory, against a heap
  that is a map of blocks. A request is met exactly if it fits between or behind the blocks. The list
  stays sorted and disjoint, owners form a forest, freeing a block frees exactly its descendants, failure
  reports are exact, payload is never touched, and 32-bit wrap-around corrupts the heap in exactly the
  stated cases.
- **Text screen** (`TextPixels.dfy`, `TextVideo.dfy`, `ScreenCopy.dfy`, `ScreenProtocol.dfy`,
  `ScreenRefinement.dfy`, `TextConsole.dfy`): masked fills per pixel, the caching raster iterator, and
  the two threads that write VRAM and copy it to the screen: no update is ever lost, and undisturbed
  the copying thread does what the sequential handler does. The console's character machine draws
  a byte stream as an endless page would show it.
- **Files** (`FileTable.dfy`): descriptors and reference counts over any number of contexts.
- **Executables** (`Fixups.dfy`): the relocation loop.

Classes carry the fields the source updates in place; their methods are proved against pure functions
and predicates (`Rotated`, `Decode`, `Linked`, `Load`, `Layout`, ...), and the lemmas say what those mean.
A ghost field only records what the real fields stand for. `hide` statements keep definitions out of
proofs that do not need them. `dafny verify dfyconfig.toml` checks everything.

## Findings

Where the code does less than its documentation or its use suggests, the contract says exactly when,
and a small example is an input for which it does:

- A PERMUTE scan differs from a scan of the sorted arguments exactly if the last element is an option
  that lacks its required argument and there are operands (`GetoptSpec.SortedScan`, `StarvedExample`).
- Only the first call of a getopt scan drops a `+` or `-` in front of the option string. Later calls take
  it for an option letter and do not see a colon behind it; the scan is that of the string without the
  prefix exactly if no call after the first tells (`GetoptPrefix.PrefixedScan`, `PrefixExample`).
- `alloc` corrupts the heap, or faults, exactly if the length plus 16 wraps around and the wrapped size
  fits a gap; `resize` corrupts it exactly if the address plus the new length wraps around and is
  accepted (`Allocator.MemoryAllocator.Alloc`, `Resize`, `Allocator.WrappedAlloc`, `WrappedResize`).
- A block allocated for an owner that is not live leaves no forest (`HeapForest.GrownForest`,
  `DeadOwnerExample`). Freeing the root block, or all that the owner 0 owns, empties the list, and no
  later call allocates or changes anything (`Allocator.MemoryAllocator.Free`, `FreeByParent`,
  `Allocator.EmptiedExample`).
- `fill_plane` checks nothing, and `_TXFILL` passes on what the guest gives. For any rectangle and plane all
  accesses stay in VRAM exactly if it has no rows or the first word of the first row and the last word of the
  last row lie there (`TextVideo.FillStaysInside`). Within 1024 columns, 1024 rows and 4 planes only a rectangle of no width at
  the right edge of the last plane that reaches the last row leaves VRAM (`InnerFillStaysInside`,
  `FillOutsideExample`); inside VRAM, columns beyond 1024 continue in the next row (`Covered`). Rows outside
  0 to 1024 are also marked outside the array of marks.
- A long word that starts in the last word of a memory whose size is not a multiple of four is accessed
  beyond the array (`MainMemory.Memory.Get32`, `Put32`, `MainMemory.LastWordExample`). The emulator's own
  memory has whole megabytes and never meets this.
- A tab at column 96 moves the console's cursor to 104; nothing else leaves the screen
  (`TextConsole.EdgeIsLeftByTabs`, `TabExample`).
- The relocation loop reads beyond its stream exactly if the stream does not end with an entry and every
  entry in front of the cut has an even distance and leads to a long word in memory
  (`Fixups.OverrunsExactly`, `CutStreamExample`).
- Rule 1 of the plural grammar stores its result even if the parse then fails: exactly if a proper prefix
  of the tokens is a sentence and the next token is neither `?` nor a binary operator
  (`PluralParser.YyParse`, `FailedParseExamples`).

## Model

| member | source | states |
|---|---|---|
| PluralGrammar.Normalize | intl/plural.c:252-259 | every derivation in the ambiguous grammar of rules 2 to 12 has a derivation that obeys the precedences and yields the same tokens, so the precedences lose no sentence |
| PluralGrammar.GraftBin | intl/plural.c:252-259 | two canonical derivations can always be joined by a binary operator into a canonical one with the same tokens, whose level is the least of the three |
| PluralGrammar.GraftCond | intl/plural.c:252-259 | likewise for `?:` |
| PluralGrammar.GraftNot | intl/plural.c:252-259 | likewise for `!` |
| PluralGrammar.MinCstMeans | intl/plural.c:252-259 | the derivation printed for an expression is canonical and means that expression |
| PluralGrammar.MinCstIsMinimal | intl/plural.c:252-259 | no canonical derivation of an expression has fewer parentheses than the printed one |
| PluralTables.TablesMatch | intl/plural.c:190-301 | for all 27 states and 16 symbols the lookups in the packed tables give the action of the LR automaton |
| PluralTables.GotosMatch | intl/plural.c:268-280 | the goto lookups lead from each operand state to the state after an expression |
| PluralTables.ErrorTokenNeverShifted | intl/plural.c:1084-1103 | no state shifts the error token, so recovery can only give up |
| PluralAutomaton.HandleOnTop | intl/plural.c:825-976 | whenever the automaton reduces by a rule, the rule's right-hand side is on the stack, an operand state is uncovered, and the new expression fits there and ends at the lookahead |
| PluralAutomaton.StepValid | intl/plural.c:619-976 | every action keeps the stack a viable prefix of states that match their symbols |
| PluralAutomaton.StepInput | intl/plural.c:619-976 | no action loses, adds or reorders a token |
| PluralAutomaton.StepDecreases | intl/plural.c:619-976 | every action decreases a measure, so every parse ends |
| PluralAutomaton.RunSound | intl/plural.c:619-976 | an accepting run ends with the canonical derivation of exactly the input |
| PluralAutomaton.ParseDecides | intl/plural.c:252-301 | the automaton accepts an input with a derivation if and only if that derivation is canonical and yields the input |
| PluralAutomaton.CanonicalUnique | intl/plural.c:252-301 | a token sequence has at most one canonical derivation |
| PluralAutomaton.RejectsExactlyNonSentences | intl/plural.c:978-1103 | the automaton rejects exactly the token sequences that no derivation of the ambiguous grammar yields |
| PluralAutomaton.EarlyEnd | intl/plural.c:848-854 | where a prefix is a sentence and the next token does not go on with it, the run's last configuration holds that prefix's derivation, reduced by rule 1, in front of that token |
| PluralAutomaton.EarlyEndUnique | intl/plural.c:848-854 | a token sequence has at most one such prefix |
| PluralLexer.LexDigits | intl/plural.c:1201-1214 | a literal is its whole run of digits, its value the decimal number modulo 2^32 |
| PluralLexer.LexSymbol | intl/plural.c:1216-1312 | each operator character with its one character of lookahead gives its token code, semantic value and rest |
| PluralLexer.YyLex | intl/plural.c:1176-1318 | one call skips blanks and tabs and returns code, value and position of the first token of the remaining text; or the end, then at the end of the string, a semicolon, a line feed or a null character behind nothing but blanks and tabs |
| PluralLexer.BlanksAndEnds | intl/plural.c:1184-1305 | a blank and a tab in front change nothing; the empty string, and one that starts with a semicolon, a line feed or a null character, have no token |
| PluralLexer.SingleCharacters | intl/plural.c:1266-1295 | each of the ten characters that are a token by themselves, and the rest is what follows it |
| PluralLexer.PairsOfCharacters | intl/plural.c:1216-1264 | each of the six pairs of characters that are a token |
| PluralLexer.LoneCharacters | intl/plural.c:1216-1264 | what the first character of such a pair is by itself: an operator, the negation, or an error |
| PluralLexer.OtherCharacters | intl/plural.c:1306-1311 | every other character is an error token |
| PluralLexer.OneDigit | intl/plural.c:1201-1214 | a digit denotes its number |
| PluralLexer.OneMoreDigit | intl/plural.c:1201-1214 | one more digit multiplies by ten and adds, modulo 2^32 |
| PluralPrint.ScansLayout | intl/plural.c:1176-1318 | any tokens spelled with blanks between those that would merge scan back to those tokens |
| PluralPrint.ScansTerminated | intl/plural.c:1299-1305 | the same in front of a semicolon, a line feed or a null character, whatever follows |
| PluralPrint.YieldNoMerge | intl/plural.c:1216-1264 | no derivation puts two tokens side by side that need a blank between them |
| PluralPrint.ScansPrinted | intl/plural.c:1176-1318 | a printed expression, with any spacing and up to whatever ends the input, scans to the tokens of its derivation |
| PluralParser.HandleSlots | intl/plural.c:825-976 | the slots a rule's action reads hold the values of its right-hand side, and popping its length leaves the stacks of the uncovered automaton stack |
| PluralParser.Action | intl/plural.c:846-927 | each semantic action computes the expression of the reduced derivation |
| PluralParser.Backup | intl/plural.c:717-815 | the decision is the automaton's action on the coming token, and a token is read only if the state needs one |
| PluralParser.DoReduce | intl/plural.c:825-976 | a reduction keeps the two stacks in step with the automaton's stack, and rule 1 stores the result |
| PluralParser.DoShift | intl/plural.c:795-815 | a shift pushes the token's value and state and uses the token up |
| PluralParser.Recover | intl/plural.c:978-1103 | error recovery from any reachable stack pops it to the bottom and returns 1 |
| PluralParser.YyParse | intl/plural.c:550-1144 | for every text the parser ends; it returns 0 with the expression of the canonical derivation if and only if the tokens are a sentence, and otherwise 1; a failed parse leaves a result if and only if a proper prefix is a sentence and the next token does not go on with it, and then it is that prefix's expression |
| PluralParser.FailedParseExamples | intl/plural.c:848-854 | the text `n n` is no sentence and leaves the result of `n` behind; `n + )` leaves none |
| PluralParser.RoundTrip | intl/plural.c:550-1318 | for every expression with literals below 2^32 and every spacing, any outcome `YyParse` allows on the printed text is status 0 and that same expression; also in front of a semicolon, a line feed or a null character and anything behind it |
| PluralParser.OperandsMean | intl/plural.c:904-916 | the token of `n` parses to the variable and a number's token to that number |
| PluralParser.BinaryMeans | intl/plural.c:858-897 | two token sequences in parentheses with an operator between them parse to that operator applied to what the first and what the second parses to |
| PluralParser.UnaryMeans | intl/plural.c:898-922 | parentheses change nothing, and `!` in front negates |
| PluralParser.CondMeans | intl/plural.c:854-859 | three token sequences in parentheses joined by `?` and `:` parse to test, then and else in this order |
| PluralParser.PluralRuleExample | intl/plural.c:1299-1305 | `n != 1;` and a line feed parse to the comparison of the variable with 1 |
| GetoptSpec.Decode | programs/getopt.c:634-964 | decoding one option of an element uses at most one more element, and when it does not finish the element a shorter rest is left |
| GetoptSpec.FindLongMatches | programs/getopt.c:649-672 | the outcome of the search is, and is only, the first option of exactly that name, or else the only one the name abbreviates, or else ambiguous if it abbreviates several |
| GetoptSpec.DecodeIsNotTheEnd | programs/getopt.c:634-964 | no decoded option returns -1 unless a long option's value is -1 |
| GetoptSpec.ClusterArgument | programs/getopt.c:917-962 | how many elements a cluster of options uses does not depend on what the next element is, only on whether there is one |
| GetoptSpec.DecodeSplits | programs/getopt.c:542-617 | handing out one option at a time splits the events and elements of the whole scan without loss |
| GetoptSpec.PermutedInterleaves | programs/getopt.c:553-610 | the options and the operands of a permuting scan, each in their order, interleave to the original arguments: a stable partition |
| GetoptSpec.OperandsStop | programs/getopt.c:576-610 | unless `--` ended the scan, the first operand does not look like an option |
| GetoptSpec.SortedScan | programs/getopt.c:553-610 | scanning the permuted arguments in order gives the same events and stops at the operands if and only if not (an option at the end lacks its argument and there are operands) |
| GetoptSpec.StarvedExample | programs/getopt.c:941-955 | `file -o`, with -o requiring an argument, is such a case; `-o file` and `-o` are not |
| GetoptLaws.LongWithValue | programs/getopt.c:685-741 | `--name=value` reports the option with exactly `value` as its argument and uses one element, or complains if the option takes none; with one dash too in long-only mode |
| GetoptLaws.LongAlone | programs/getopt.c:717-741 | `--name` alone takes exactly the next element if the option requires an argument, or complains if there is none, with a colon if the option string starts with one; otherwise it takes none |
| GetoptLaws.LongUnknown | programs/getopt.c:674-683 | an ambiguous or unknown name is a complaint with optopt 0 |
| GetoptLaws.LettersInLongOnly | programs/getopt.c:634-636 | in long-only mode a single known letter is a letter, and so is a cluster with an unknown name and a known letter |
| GetoptLaws.UnknownLetter | programs/getopt.c:771-792 | a letter the option string does not hold, and a colon, are complaints that tell the letter, and the rest of the element goes on |
| GetoptLaws.PlainLetter | programs/getopt.c:768-778 | a letter without a colon behind it reports itself without an argument, and the rest of the element goes on |
| GetoptLaws.LetterWithArgument | programs/getopt.c:931-960 | a letter with one colon takes the rest of its element, or else exactly the next element, or complains |
| GetoptLaws.LetterWithOptionalArgument | programs/getopt.c:919-930 | a letter with two colons takes the rest of its element if there is any and never the next one |
| GetoptLaws.PermutingByElement | programs/getopt.c:553-587 | `--` ends the options of a permuting scan; an empty element, a single dash and what does not start with a dash are operands; everything else is an option element |
| GetoptLaws.InOrderByElement | programs/getopt.c:576-610 | without permutation an operand ends the scan or is reported with code 1 |
| GetoptLaws.FirstOption | programs/getopt.c:612-617 | the first option of a scan is that of the first element, which has the second one for an argument |
| GetoptLaws.ArgumentExample | programs/getopt.c:685-741 | three ways to give one argument mean the same |
| GetoptLaws.AbbreviationExample | programs/getopt.c:649-683 | an exact name wins over names it abbreviates, an abbreviation of two is a complaint |
| GetoptPrefix.LetterAgreement | programs/getopt.c:771-792 | with and without the prefix a letter is decoded alike if and only if it is used alike, a lacking argument is not to be reported by a colon, or it is refused without the prefix and lacks an argument with it; otherwise the reported events differ |
| GetoptPrefix.CallAgreement | programs/getopt.c:634-964 | the same for a whole call, with long options tried, found, ambiguous or unmatched |
| GetoptPrefix.PrefixedScan | programs/getopt.c:407-416 | a scan whose later calls see the prefix is the scan of the string without it if and only if no call after the first tells the prefix |
| GetoptPrefix.PrefixExample | programs/getopt.c:946-954 | with "+:xa:" the scan of `-x -a` differs, that of `-x -a b` does not |
| Getopt.SwapBlocks | programs/getopt.c:349-372 | the inner loop exchanges two disjoint blocks of equal length and nothing else |
| Getopt.RotateShortBottom | programs/getopt.c:342-358 | after the shorter bottom block went to the far end, rotating what is left rotates the whole |
| Getopt.RotateShortTop | programs/getopt.c:359-375 | the same for a shorter top block |
| Getopt.Rotate | programs/getopt.c:340-376 | the loop ends with the two adjacent blocks in each other's place and the rest of argv untouched |
| Getopt.Scanner.Exchange | programs/getopt.c:304-382 | argv[first_nonopt, optind) becomes the options after the operands followed by the operands, and the two indices still delimit the operands |
| Getopt.Scanner.Initialize | programs/getopt.c:390-453 | the ordering follows the option string's prefix, then POSIXLY_CORRECT, and earlier scans are forgotten |
| Getopt.Scanner.OrderingPrefix | programs/getopt.c:405-420 | a dash selects RETURN_IN_ORDER and a plus REQUIRE_ORDER, and both are dropped; otherwise POSIXLY_CORRECT selects REQUIRE_ORDER over PERMUTE |
| Getopt.Scanner.SearchLong | programs/getopt.c:649-672 | the table loop with its exact and ambiguous flags finds what the name refers to |
| Getopt.Scanner.DecodeFound | programs/getopt.c:685-741 | code, optarg, optopt, flag store, position and rest of a long option are those of the specification |
| Getopt.Scanner.DecodeShort | programs/getopt.c:768-964 | the same for a short option letter |
| Getopt.Scanner.DecodeElement | programs/getopt.c:634-964 | the same for whichever of the two the element asks for, and for unknown and ambiguous names |
| Getopt.Scanner.Gather | programs/getopt.c:553-561 | after the exchange at the start of a call the options seen so far come first and the operands seen so far follow |
| Getopt.Scanner.EndOfOptions | programs/getopt.c:571-587 | `--` joins the options and everything after it the operands |
| Getopt.Scanner.GetoptInternal | programs/getopt.c:512-965 | one call hands out the next event of the whole scan and leaves exactly the rest to come, or returns -1 when nothing is left; between calls start <= first_nonopt <= last_nonopt <= optind <= argc; outside PERMUTE argv does not change |
| Getopt.Scanner.ScanPermuting | programs/getopt.c:512-965 | calling until -1 in PERMUTE mode reports exactly the specified events and leaves argv with the options and their arguments, then the operands, and optind at the first operand |
| Getopt.Scanner.ScanInOrder | programs/getopt.c:601-610 | calling until -1 in REQUIRE_ORDER or RETURN_IN_ORDER mode, whether a prefix or POSIXLY_CORRECT chose it, reports the events of an in-order scan whose first call goes by the string without the prefix and whose later ones go by the whole string, stops at its position, and leaves argv as it was |
| HeapModel.UnlinkedKeepsList | libvx68kdos/allocator.cc:39-50 | unlinking any block but the root leaves a sorted list of disjoint blocks from the root to the new last block |
| HeapModel.LinkedKeepsList | libvx68kdos/allocator.cc:52-68 | linking in a block where there is room keeps the list |
| HeapModel.ResizedKeepsList | libvx68kdos/allocator.cc:153-157 | moving a block's end up to the next block keeps the list |
| HeapModel.ResizedOnly | libvx68kdos/allocator.cc:153-157 | exactly the end of that block changes |
| HeapModel.GapIsFree | libvx68kdos/allocator.cc:185-189 | the gap behind a block starts and ends 16-aligned below the limit and holds no other block, so the -7 exit is never taken |
| HeapModel.GapIsFilled | libvx68kdos/allocator.cc:249-254 | a block as large as the largest gap leaves no gap behind it |
| HeapPlaces.FailureIsExact | libvx68kdos/allocator.cc:200-213 | 0x82000000 means that no request for a byte fits anywhere; 0x81000000+m that one for m does and no larger one |
| HeapModel.ResizeFailureIsExact | libvx68kdos/allocator.cc:141-151 | for resize, 0x81000000+m means that the block may have m bytes and no more, 0x82000000 that it may have none |
| HeapModel.ResultsDistinct | libvx68kdos/allocator.cc:197-213 | with a limit below 2^24 addresses, size reports, 0x82000000, -7 and -9 never coincide |
| HeapModel.ListsAgree | libvx68kdos/allocator.cc:39-68 | the links of a list are determined by its blocks |
| HeapPlaces.FitsIsPlaceable | libvx68kdos/allocator.cc:185-197 | some gap is large enough if and only if there is an aligned address behind some block where the request meets no block and ends below the limit, be it between blocks or behind the last one |
| HeapPlaces.HighestFitIsTop | libvx68kdos/allocator.cc:185-197 | the highest gap that is large enough starts at the lowest such address of the highest hole |
| HeapPlaces.TopPlaceUnique | libvx68kdos/allocator.cc:185-197 | there is only one such address |
| HeapPlaces.BestFitIsTop | libvx68kdos/allocator.cc:216-255 | the highest of the largest gaps is the largest request that fits, at the top address for it |
| HeapForest.DescendantsAreDeeper | libvx68kdos/allocator.cc:70-84 | descendants lie deeper in the forest, so the recursion of free_by_parent ends |
| HeapForest.DescendsInShrunk | libvx68kdos/allocator.cc:70-84 | freeing other blocks does not change who descends from whom |
| HeapForest.SweepStep | libvx68kdos/allocator.cc:73-83 | one round of the sweep, past a child with its descendants or past any other block, removes exactly the branches above the next block |
| HeapForest.SweepFrees | libvx68kdos/allocator.cc:76-82 | after a child's descendants and the child are gone, the prev word still stored in its header names a block that is left, even if nested calls freed the one before it |
| HeapForest.PrunedForest | libvx68kdos/allocator.cc:101-109 | freeing a block with its descendants leaves a forest |
| HeapForest.GrownForest | libvx68kdos/allocator.cc:190-192 | a new block leaves a forest if and only if a live block owns it |
| HeapForest.DeadOwnerExample | libvx68kdos/allocator.cc:190-192 | a block that an address without a block allocates behind the root of a forest leaves none |
| HeapForest.AllocThenFree | libvx68kdos/allocator.cc:86-120 | whatever list is left when a newly allocated block is freed with its descendants is the heap before the allocation |
| HeapWords.WithoutBlockReflects | libvx68kdos/allocator.cc:39-50 | the two stores of remove_block make memory hold the heap without the block |
| HeapWords.WithBlockReflects | libvx68kdos/allocator.cc:52-68 | the six stores of make_block make memory hold the heap with the new block |
| HeapWords.PayloadKept | libvx68kdos/allocator.cc:39-68 | where only headers of blocks changed, every payload word of every block is as it was |
| HeapWords.ReachedFromRoot | libvx68kdos/allocator.cc:52-68 | all blocks are reached from the root along the next words in memory |
| HeapWords.DescribesOne | libvx68kdos/allocator.cc:39-68 | memory describes at most one well-formed heap |
| HeapWords.WithEndUnsound | libvx68kdos/allocator.cc:129-157 | a block whose end is moved into its header leaves memory that describes no well-formed heap |
| HeapWords.WithBlockUnsound | libvx68kdos/allocator.cc:178-192 | nor does memory after linking in a block that ends in its header, wherever its header overlaps |
| Allocator.MemoryAllocator.constructor | libvx68kdos/allocator.cc:257-270 | the stores succeed if and only if the aligned address, modulo 2^24, has room for a header, and then memory holds there the header of a root block without payload; it is a well-formed heap if and only if the address is not 0 and the block fits below a limit inside memory and under 2^24 |
| Allocator.HeaderInBytes | libvx68kdos/allocator.cc:39-68 | in big-endian bytes a header tells the block before, the owner, the end and the block behind, four bytes each, in this order |
| Allocator.MemoryAllocator.RemoveBlock | libvx68kdos/allocator.cc:39-50 | for every block, the root too, exactly the neighbours' links change in memory and the removed header still tells its predecessor; unless it was the root, memory holds the unlinked heap and only headers changed |
| Allocator.MemoryAllocator.MakeBlock | libvx68kdos/allocator.cc:52-68 | a block of at least 16 bytes: memory holds the linked heap and only headers changed; a smaller one faults if its header lies outside memory, and otherwise leaves no well-formed heap |
| Allocator.MemoryAllocator.FreeByParent | libvx68kdos/allocator.cc:70-84 | ends; for a block, keeps list and forest, removes exactly its proper descendants, keeps owner and end of every other block, and changes only headers; for any other address changes nothing, except for that of owner 0, which empties the list |
| Allocator.MemoryAllocator.Free | libvx68kdos/allocator.cc:86-120 | 0 if and only if the address is that of a live block, which then goes with exactly its descendants; -9 and no change otherwise; freeing the root empties the list, and then every call is of the second kind |
| Allocator.MemoryAllocator.Resize | libvx68kdos/allocator.cc:122-169 | -9, or the failure code of the room up to the next block, both without change; or 0 with exactly that block's end moved; memory stays a well-formed heap if and only if address plus length does not wrap around; on an emptied list always -9 |
| Allocator.MemoryAllocator.Alloc | libvx68kdos/allocator.cc:171-214 | if the request fits nowhere, as on an emptied list, no change and the exact failure report; else one block more, at the lowest address of the highest hole that holds it, for that owner; it stays a forest if and only if the owner is live; if length plus header wraps around and fits, memory holds no well-formed heap any more, or the access faults if the new header lies outside memory |
| Allocator.MemoryAllocator.AllocLargest | libvx68kdos/allocator.cc:216-255 | one block more, of the largest size that fits anywhere, at the start of the highest hole of that size; or 0x82000000 and no change if no byte fits, as on an emptied list |
| Allocator.MemoryAllocator.MFree | libvx68kdos/doscontext.cc:150-160 | 0 frees exactly what descends from the current process's block and changes only headers; any other address is freed as by free, the root's too |
| Allocator.WrappedAlloc | libvx68kdos/allocator.cc:178-192 | on a fresh heap a request for 2^32 - 8 bytes succeeds and leaves no well-formed heap |
| Allocator.WrappedResize | libvx68kdos/allocator.cc:129-157 | on a fresh heap resizing the root block to 2^32 - 8 bytes succeeds and leaves no well-formed heap |
| Allocator.EmptiedExample | libvx68kdos/allocator.cc:101-109 | freeing the root block of a fresh heap leaves an empty list, and nothing can be allocated or freed any more |
| MainMemory.LongIsFourBytes | libvx68kdos/main_memory.cc:111-127 | a long word is its four bytes, the highest first |
| MainMemory.StoredByte | libvx68kdos/main_memory.cc:129-148 | replacing half of a word replaces exactly that byte |
| MainMemory.StoredLong | libvx68kdos/main_memory.cc:165-178 | storing the two halves of a long word replaces exactly that long word and exactly its four bytes |
| MainMemory.Memory.constructor | libvx68kdos/main_memory.cc:48-58 | the size is rounded up to an even number, 2^32 - 1 to 0, and every word is an illegal instruction |
| MainMemory.Memory.Get8 | libvx68kdos/main_memory.cc:70-95 | the byte at the address modulo 2^24, or a bus error beyond the memory |
| MainMemory.Memory.Get16 | libvx68kdos/main_memory.cc:97-109 | the two bytes, the first one high, or a bus error |
| MainMemory.Memory.Get32 | libvx68kdos/main_memory.cc:111-127 | the long word, or a bus error; an access beyond the array exactly if the address is that of the last word |
| MainMemory.Memory.Put8 | libvx68kdos/main_memory.cc:129-148 | exactly one byte changes; a write beyond the memory, or below the protected size from outside supervisor data space, changes nothing |
| MainMemory.Memory.Put16 | libvx68kdos/main_memory.cc:150-163 | exactly two bytes change, or a bus error and no change |
| MainMemory.Memory.Put32 | libvx68kdos/main_memory.cc:165-178 | exactly one long word, and so exactly its four bytes, change; or a bus error and no change; or, at the last word, that word gets the high half and the low half goes beyond the array |
| MainMemory.Memory.SetProtectedSize | libvx68kdos/main_memory.cc:61-67 | changes the protected size and no byte |
| MainMemory.LastWordExample | libvx68kdos/main_memory.cc:111-178 | in a memory of two bytes the long word at 0 is read and written beyond the array |
| TextVideo.FillStaysInside | libvx68k/textvram.cc:217-274 | for every rectangle and plane all words a fill accesses lie in VRAM if and only if the first word of the first row and the last word of the last row do, or there are no rows |
| TextVideo.InnerFillStaysInside | libvx68k/textvram.cc:217-274 | within 1024 columns, 1024 rows and 4 planes they do if and only if it is not an empty rectangle at the right edge of the last plane reaching the last row |
| TextVideo.FillOutsideExample | libvx68k/textvram.cc:427-449 | that empty rectangle leaves VRAM, and so does one reaching beyond the last column of the last row |
| TextVideo.CoveredPixels | libvx68k/textvram.cc:217-276 | within those bounds the bits a fill covers are exactly the pixels of the rectangle on that plane |
| TextVideo.TextVideoMemory.DotInBytes | libvx68k/textvram.cc:60-75 | pixel x of row y of plane k is bit x mod 8, the highest first, of byte 131072 k + 128 y + x / 8 |
| TextVideo.TextVideoMemory.FillColumn | libvx68k/textvram.cc:231-235 | a column loop gives exactly the bits its mask selects in the given rows the pattern's bits, for every column inside VRAM |
| TextVideo.TextVideoMemory.FillPlane | libvx68k/textvram.cc:217-276 | for every rectangle and plane whose accesses exist, exactly the covered bits of VRAM take pattern bit x mod 16 counted from the left, all others stay, and exactly its rows are marked besides those that were; within the bounds these are the pixels of the half-open rectangle; the words accessed are exactly those of FillStaysInside |
| TextVideo.TextVideoMemory.Scroll | libvx68k/textvram.cc:136-146 | on the first two planes text lines move up by one and the last is cleared, the other planes stay, and the rows are marked |
| TextVideo.TextVideoMemory.MarkUpdateArea | libvx68k/textvram.cc:105-115 | marks exactly the given rows |
| TextVideo.TextVideoMemory.RowChanged | libvx68k/textvram.cc:117-124 | tells the mark of a row, clears it and no other |
| ScreenCopy.RasterIterator.Value | libvx68k/textvram.cc:60-75 | the cached bytes give the four plane bits of the pixel at the column modulo 1024 |
| ScreenCopy.RasterIterator.Next | libvx68k/textvram.cc:77-92 | after an increment the cache is again that of the current column |
| ScreenCopy.Palettes.CheckTextColorsModified | libvx68k/palettemem.cc:41-49 | tells and clears the flag |
| ScreenCopy.GtkConsole.PutPixel | libvx68k-gtk/gtkconsole.cc:512-526 | writes exactly one pixel: red, green and blue in this order, each from five bits of the colour and its lowest bit, scaled from 63 to 255 |
| ScreenCopy.MixedColor | libvx68k-gtk/gtkconsole.cc:698-707 | 2048 g + 64 r + 2 b + x has the bytes (2 r + x) 255 / 63, then the same of g and of b |
| ScreenCopy.GtkConsole.MixedPixel | libvx68k-gtk/gtkconsole.cc:512-526 | those are the three bytes from (768 y + x) 3 on of a pixel that shows the colour |
| ScreenCopy.GtkConsole.ScanRow | include/vx68k/machine.h:201-216 | exactly the row's pixels take the colours of their VRAM bits through the palette |
| ScreenCopy.GtkConsole.HandleTimeout | libvx68k-gtk/gtkconsole.cc:600-628 | every marked row, and every row if a due check finds the palette changed, shows its VRAM bits: plane k counts 2^k, that entry of the palette gives the red, green and blue bytes of the buffer; all other pixels stay; marks of the screen's rows are cleared |
| ScreenProtocol.MachineKeepsInv | libvx68k/textvram.cc:505-542 | a VRAM write before its mark, a mark, or a palette write keeps the invariant wherever the timeout handler is |
| ScreenProtocol.TimerKeepsInv | libvx68k-gtk/gtkconsole.cc:600-628 | so does each single access of the timeout handler: testing and clearing marks, taking the palette, fetching bytes, emitting pixels |
| ScreenProtocol.NoLostUpdate | libvx68k-gtk/gtkconsole.cc:600-628 | in every state of every interleaving, a row that is unmarked, has no write awaiting its mark and is not being copied shows VRAM through the current palette, unless a palette change is pending |
| ScreenProtocol.TimeoutCopies | libvx68k-gtk/gtkconsole.cc:600-628 | the steps of a pass that the machine does not disturb copy exactly the marked rows, or all if a due check finds the palette changed, and clear exactly the marks of the screen's rows |
| ScreenProtocol.ScreenSettles | libvx68k-gtk/gtkconsole.cc:603-609 | once the machine stops writing, the whole screen is right after as many timeouts as the check counter says, and stays right |
| ScreenProtocol.QuietScreenSettles | libvx68k-gtk/gtkconsole.cc:603-609 | the same from any moment of any run, after the pass under way and one check interval |
| ScreenRefinement.HandleOne | libvx68k-gtk/gtkconsole.cc:600-628 | one call of the sequential handler takes the objects to the state that the thread's steps reach undisturbed |
| ScreenRefinement.HandleMany | libvx68k-gtk/gtkconsole.cc:600-628 | once nobody writes, the bytes of the RGB buffer are those of the VRAM bits through the palette after as many calls as the check counter says, and after any number more |
| TextConsole.LayoutStaysInColumns | libvx68k/machine.cc:85-109 | on a page every character lies within 96 columns if no tab arrives at column 96 |
| TextConsole.EdgeIsLeftByTabs | libvx68k/machine.cc:57-59 | the cursor stays within column 96 at every point of a stream if and only if no tab arrives at column 96 |
| TextConsole.TabExample | libvx68k/machine.cc:57-59 | a tab at column 96 moves the cursor to column 104, and the next character is drawn there |
| TextConsole.EncodedIsRead | libvx68k/machine.cc:77-83 | the bytes of a text of single- and double-byte characters are paired to exactly those characters |
| TextConsole.ControlCodes | libvx68k/machine.cc:51-74 | a tab goes to the next multiple of eight, a line feed down in the same column, a carriage return to column 0; other control codes do nothing, and all forget a lead byte |
| TextConsole.SingleByte | libvx68k/machine.cc:75-110 | a single-byte character is drawn at the cursor and moves it by one, from column 96 on the next line |
| TextConsole.LeadByte | libvx68k/machine.cc:102-104 | a lead byte is kept and draws nothing |
| TextConsole.DoubleByte | libvx68k/machine.cc:77-110 | a byte behind a lead byte makes one character two columns wide, from column 95 or 96 on the next line |
| TextConsole.Console.BPutc | libvx68k/machine.cc:47-111 | one code has on the page the effect of its item, draws within the 96 by 31 cells while the cursor is inside, scrolls only on the last line, and leaves the columns only by a tab at column 96 |
| TextConsole.Console.BPrint | libvx68k/machine.cc:113-124 | a string draws on the page the layout of its characters, and the number of scrolls is the number of lines past the last |
| FileTable.FileSystem.Unref | libvx68kdos/filesystem.cc:279-295 | exactly one reference less, and a file without references is gone |
| FileTable.FileSystem.Ref | libvx68kdos/filesystem.cc:297-309 | exactly one reference more |
| FileTable.OneReference | libvx68kdos/filesystem.cc:279-309 | taking a reference raises exactly one count by one, dropping one lowers it or removes the file if it was the last; the null file changes nothing |
| FileTable.FileSystem.Open | libvx68kdos/filesystem.cc:319-368 | 0 and a new entry with one reference if the mode is valid and the console or the host's file opens; otherwise no change, and -12 for an invalid mode, -19 if the host does not permit it, -2 if it refuses otherwise |
| FileTable.FileSystem.Create | libvx68kdos/filesystem.cc:370-391 | the same for creation |
| FileTable.Context.constructor | libvx68kdos/doscontext.cc:364-386 | the console file is in five standard slots and five descriptors and has ten references |
| FileTable.Context.Close | libvx68kdos/doscontext.cc:100-110 | clears exactly an open descriptor and conserves references, or returns -6 without change |
| FileTable.Context.Dup | libvx68kdos/doscontext.cc:112-124 | the lowest free descriptor gets the file and its count one more; -6 and -4 without change |
| FileTable.Context.Open | libvx68kdos/doscontext.cc:126-136 | the lowest free descriptor gets the new file; -4 exactly if none is free; failures change nothing |
| FileTable.Context.Create | libvx68kdos/doscontext.cc:138-148 | the same for creation |
| FileTable.Context.Destroy | libvx68kdos/doscontext.cc:352-362 | drops exactly the references of all slots |
| FileTable.StoredConserves | libvx68kdos/doscontext.cc:101-124 | filling a free slot with a reference, and clearing a slot with its reference, conserve each file's count minus its slots |
| FileTable.StepKeepsBalance | libvx68kdos/doscontext.cc:101-148 | any call, creation or destruction of a context keeps every count equal to the number of slots over all contexts |
| FileTable.RunsAreBalanced | libvx68kdos/doscontext.cc:352-386 | in every run over any number of contexts counts equal slots, no slot holds a deleted file, and when all contexts are gone no file is left |
| FileTable.BalancedContextsHold | libvx68kdos/filesystem.cc:279-309 | in such a run every file a context refers to is in the map, as unref and ref assert |
| FileTable.Dos.CallIsStep | libvx68kdos/doscontext.cc:101-148 | a call that changes one context's slots and conserves the references is a step of the world, in which all other contexts' slots stay and every count is right again |
| FileTable.Dos.CreateContext | libvx68kdos/dos.cc:587-595 | creating a context is a step, and no two contexts share a slot |
| FileTable.Dos.DeleteContext | libvx68kdos/doscontext.cc:352-362 | destroying one is a step, and with the last context all files are gone |
| FileTable.Dos.Close | libvx68kdos/doscontext.cc:100-110 | closing a descriptor of any context is a step |
| FileTable.Dos.Dup | libvx68kdos/doscontext.cc:112-124 | so is duplicating one |
| FileTable.Dos.Open | libvx68kdos/doscontext.cc:126-136 | so is opening a file, or failing to |
| FileTable.Dos.Create | libvx68kdos/doscontext.cc:138-148 | so is creating one |
| Fixups.NextOfEncoded | libvx68kdos/doscontext.cc:278-284 | every even 32-bit distance, encoded in 16 bits or with the prefix 1 in 32, is read back with exactly its bytes |
| Fixups.LoadFixups | libvx68kdos/doscontext.cc:274-297 | for every stream the loop ends, with the memory and the status of `Load`: entries before an odd distance, a fault or the end of the stream take effect, and an entry that faults does not |
| Fixups.EncodedFixups | libvx68kdos/doscontext.cc:274-297 | for every list of even distances at least 4 apart inside memory, loading its encoding consumes the stream and adds load minus base modulo 2^32 to exactly the long words it leads to |
| Fixups.RelocatedLongs | libvx68kdos/doscontext.cc:291-293 | a long word at any address the distances lead to becomes itself plus load minus base modulo 2^32, so an address in it keeps its distance, from the base before and from the load address afterwards |
| Fixups.OtherWords | libvx68kdos/doscontext.cc:274-297 | every word that is no half of such a long word stays |
| Fixups.ShortEntry | libvx68kdos/doscontext.cc:276-293 | two bytes, the higher first, are a distance unless they are 0 and 1: the long word there grows by the displacement, or the loop ends if the distance is odd |
| Fixups.LongEntry | libvx68kdos/doscontext.cc:278-293 | the bytes 0 and 1 announce a distance of four bytes, the highest first |
| Fixups.EntryFaults | libvx68kdos/doscontext.cc:291-293 | a long word outside memory is a fault at its first missing word, and nothing is stored |
| Fixups.CutEntry | libvx68kdos/doscontext.cc:276-284 | one byte, or an announcement and less than four bytes, is overrun |
| Fixups.PlacedFixups | libvx68kdos/doscontext.cc:274-297 | what relocation does to an image does not depend on where the image lies, and what lies around it stays |
| Fixups.RebasedTwice | libvx68kdos/doscontext.cc:275-293 | an image relocated to where it lies, moved to any other place and relocated from the first place to the second, is the image loaded at the second at once |
| Fixups.OverrunsExactly | libvx68kdos/doscontext.cc:276-293 | the loop reads beyond the stream if and only if the stream is not made of whole entries and all in front of the cut are good; it adjusts everything if and only if it is made of whole, good ones |
| Fixups.CutStreamExample | libvx68kdos/doscontext.cc:276-289 | a stream of one byte, and one that ends behind the prefix of a long distance, are overrun; one cut behind an odd distance is not |

## Left out

- Plural expressions: memory management of the trees, malloc failure, and the parser's stack limits (200 to 10000); the model's stacks are unbounded. `unsigned long` is taken as 32 bits wide.
- getopt: the `W;` branch, `_LIBC` blocks and error messages. A long option whose value is -1 ends the caller's loop early, so the whole-scan theorems exclude it. `char` values above 127 are not converted.
- Allocator.MemoryAllocator.constructor: if a store throws there is no allocator; the model's object then only tells so, and which of the four stores took effect is not stated.
- Allocator.MemoryAllocator.Alloc: for lengths that wrap around, what exactly is overwritten is not stated, only that no well-formed heap is left.
- The memory map that forwards accesses to devices, and the 68000 processor, are not part of this model; the allocator works directly on main memory, and relocation accesses the long words of main memory, which need not be aligned to four, as two words.
- TextVideo.TextVideoMemory.FillPlane: excludes the rectangles and planes for which a word outside VRAM, given exactly by FillStaysInside, or a mark outside the marks is accessed; those may reach beyond column or row 1024 or plane 3, or have no width.
- Text VRAM: `put_8`, `put_16` and `draw_char` as methods of their own (they are byte writes followed by a mark, which ScreenProtocol takes as steps), and raster positions beyond 2^32.
- ScreenProtocol: each row mark is a cell of its own, while `vector<bool>` packs marks into words; the palette is read under its lock in one step.
- Drawing widgets, fonts, keyboard, mouse and all GTK calls.
- Files: reading, writing, seeking, names and errno; whether the host opens a file is an input.
- Executables: the header, loading text and data, and process start.
- Device stubs return constants, IOCS and DOS call wrappers forward their arguments, and date conversion and Shift_JIS arithmetic map one number to another: none keeps state between calls.
