# AsmJit: verified models of its algorithmic cores

This project models, in Dafny, the parts of AsmJit that hold real algorithms, and proves what they
are for. `dafny verify dfyconfig.toml` checks everything.

| files | what they model |
|---|---|
| `exp_*.dfy` | the expression language of the instruction database: lexer, operator-precedence parser over mutable nodes, printer, evaluator, name collector |
| `a64_frame`, `a64_machine`, `a64_emit`, `a64_restore`, `a64_layout`, `a64_words` | AArch64 prologs and epilogs, executed on a small machine |
| `a64_args.dfy` | where AArch64 function arguments are passed |
| `a64_opcode.dfy`, `a64_fields.dfy` | the bits and fields of AArch64 opcodes |
| `sig_*.dfy` | instruction signatures: merging rows, compacting them, sharing them in tables |
| `name_*.dfy` | packed instruction names, the reader of the packed names, and the search for a name |
| `string_pool.dfy` | a pool of strings that share their suffixes |
| `task_runner.dfy` | the scheduler of the table generator |
| `enum_index.dfy`, `enum_inject.dfy` | tables of enumeration names, and their injection into sources |
| `label_picker.dfy`, `xorshift.dfy` | the choice of labels in a benchmark, and the random number generator |
| `bits`, `word_bits`, `arithmetic`, `counting`, `sorting`, `strings`, `wrappers` | what the others share |

Code that changes things step by step is modelled by classes and loops, each proved against a
function; the functions carry the main results. What the proofs brought to light, beyond what one
expects from the names of things:

* **Expressions.** The parser accepts exactly the token lists of the grammar and returns the only
  tree that precedence and associativity allow, with the loosest operator at the root. Between two decimal numbers without spaces, a bar is
  read into the first number, because the character classes of the number expression contain a bar;
  it is an operator only behind an exponent or a hexadecimal number. A ternary is never built: the
  code that would build it refers to an undefined variable. Printing and reading an expression keeps
  its value; the tree changes only for negative numbers and bit accesses.
* **Prolog and epilog.** The epilog reaches one slot less far than the prolog: with 512 bytes of
  saved pairs the prolog can be encoded and the epilog cannot. Frames with cdecl masks stay at 176
  bytes. `FuncFrame::finalize` counts 16 bytes too few exactly for an odd number of 16-byte vector
  slots; the stack pointer it asks for is always aligned. Its offset of the stack arguments from the
  frame pointer never leads to them.
* **Arguments.** A 128-bit vector on the stack has the natural alignment that section 6.8.2 of
  AAPCS64 asks for exactly when the stack arguments before it take an even number of 8-byte slots.
  With Apple's packing, small stack arguments are misaligned exactly when the last wide one is an
  80-bit float.
* **Signatures.** Rows with the same operands are never merged, and merging is symmetric unless only
  one of two register operands has a specific register; neither keeps `compact` from preserving the
  alternatives that the rows accept. Flags that qualify all alternatives of an operand survive a
  merge unharmed exactly when both rows have the same ones. In the emitted table, where an operand
  has one register mask, a merge can narrow what is accepted: it does not exactly when the masks
  fit. `InstSignatureTable.run` fails exactly when there are instructions and none of them has a
  row.
* **Names.** A suffix of 8 characters or more runs into the bit that marks small entries; a name of
  16 characters or more with an alias loses its length. The reader has room for an alias of 32
  characters. With a shared string of exactly 4096 characters a suffix can take the place that marks
  an alias. A name is found exactly if every name looked at on the way to it is on its side, which
  the order of the names need not give where vector instructions follow all others and lose their
  suffix.
* **String pool.** The empty string is always stored, although every other string ends with it.
* **Opcodes.** The mask computed for a field of 31 or 32 bits is not the mask of its bits. Gathering
  a field gives back its values exactly if each bit is in one slice.
* **Enumerations.** A repeated or negative value moves the index of every value after it. The
  injection fails exactly if the markers do not pair up, some pair is on one line that is not the
  last, or an enumeration cannot be generated; otherwise it keeps the text before the first marker
  exactly if there is a newline behind the last begin marker.

## Model

| member | source | states |
|---|---|---|
| ExpLexer.Tokenize | db/exp.js:352-421 | the tokenizer's loop, with its taking back of a dot, gives the tokens of the longest-match definition `Lex`, or its error |
| ExpLexer.LexIsLossless | db/exp.js:352-421 | the tokens of any accepted text spell the text without its spaces: nothing is lost, invented or reordered |
| ExpLexer.OperatorIsLongest | db/exp.js:398-414 | of a run of punctuation the longest operator of at most four characters is taken, or a single character |
| ExpParserSpec.InsertSound | db/exp.js:530-567 | inserting an operator keeps the stack invariant (every waiting operator stays above the next, left operands allowed by the grammar) and the token order |
| ExpParserSpec.PushSound | db/exp.js:541-545 | an operator that binds tighter than the top goes on the stack and keeps the invariant |
| ExpParserProof.ParseCorrect | db/exp.js:437-599 | the parser returns a tree for a token list if and only if the tree is one of the stratified grammar and has these tokens in order |
| ExpParserProof.ParseFailsOnlyOutsideTheGrammar | db/exp.js:437-599 | the parser fails if and only if no tree of the grammar has these tokens |
| ExpParserProof.Unambiguous | db/exp.js:18-45 | precedence and associativity determine the tree: two trees of the grammar with the same tokens are equal |
| ExpPrecedence.RootOfChain | db/exp.js:530-567 | of any number of operands with operators between them, the parser puts at the root the loosest operator: the first of those that associate to the right, or else the last; below it is what it makes of the two parts |
| ExpPrecedence.PrecedenceDecides | db/exp.js:43-45 | of `x a y b z`, the parser makes `(x a y) b z` if and only if `a` has the smaller number or the same and does not associate to the right, and otherwise `x a (y b z)`, for every table |
| ExpPrecedence.GroupsDecide | db/exp.js:18-39 | with the tables of the program this goes by ten groups, from multiplicative over additive operators and shifts to the logical or, all to the left |
| ExpNodes.Attach | db/exp.js:530-567 | rewiring the right pointers of the nodes on the stack turns the tree they model into the one with the new operator inserted |
| ExpNodes.PlugModels | db/exp.js:593-596 | hanging the last value below the top of the stack makes the bottom node the whole tree |
| ExpParser.Parser.ParseExpressionNode | db/exp.js:453-599 | the parsing loop over mutable nodes builds the tree of the parser function, at the same place in the tokens, or fails with the same error |
| ExpParser.Parser.ParseOperandNode | db/exp.js:461-518 | chains of unary operators are linked from the outside in around the operand |
| ExpParser.Parser.ParseCallNode | db/exp.js:601-624 | the argument loop reads exactly the comma-separated arguments up to the parenthesis |
| ExpParser.Parser.ParseBitAccess | db/exp.js:626-643 | a bit access keeps its index as a number, not as a node |
| ExpParser.Parser.ParseTernary | db/exp.js:569-579 | a ternary never yields a tree: it ends in the error of its parts or in the undefined variable |
| ExpParser.Parser.Parse | db/exp.js:437-451 | the whole parser: empty input and trailing tokens are errors, everything else is as the parser function says |
| ExpReader.ParseText | db/exp.js:645-648 | text to nodes: the lexer's error first, then the parser's, else nodes that model the parsed tree |
| ExpPrinter.RoundTrip | db/exp.js:72-74 | lexing and parsing the printed text of any readable expression gives it back, with negative numbers and bit accesses written out |
| ExpPrinter.RoundTripPlain | db/exp.js:172-178 | without those two it is the same expression, nested unaries included |
| ExpPrinter.PairsPrinted | db/exp.js:72-74 | the printed text has one pair of parentheses for each operand that is a binary operator or a unary operator of an operator, two for each bit access, and no other |
| ExpReader.ReadPrinted | db/exp.js:227-233 | the round trip on mutable nodes: reading the printed text builds nodes of the expression |
| ExpPrinter.OperatorsArePrintable | db/exp.js:14-41 | no operator of the tables is split or joined with its neighbours by the longest-match lexer |
| ExpNumbers.BarInNumber | db/exp.js:313-313 | wherever a number is read, it takes a bar with it if and only if its mantissa is followed by an exponent with a bar for its letter or sign; its value is then that of the mantissa, and any other bar behind the mantissa is left for the operators |
| ExpNumbers.BarBetweenNumbers | db/exp.js:313-313 | behind the digits or fraction of a decimal number, a bar (perhaps a sign or another bar) and digits are read into that number, which keeps its value, whatever the operators are and whatever follows |
| ExpNumbers.BarBetweenDigits | db/exp.js:313-313 | so two strings of decimal digits with a bar between them are the one number that the first string spells |
| ExpNumbers.BarAfterExponent | db/exp.js:313-313 | behind a number that has an exponent already, one with a bar included, the bar begins an operator |
| ExpNumbers.BarAfterHex | db/exp.js:372-377 | behind a hexadecimal number the bar begins an operator |
| ExpNumbers.HexNumber | db/exp.js:315-350 | hexadecimal digits in either case are read as the signed 32-bit integer that they spell, whatever their number; a letter from g to z behind them is an error, any other character ends them |
| ExpEval.PrintingKeepsValue | db/exp.js:125-233 | printing and reading an expression keeps its value, for every meaning of the names in it |
| ExpEval.BitTextReadsTheBit | db/exp.js:130-134 | the text printed for a bit access evaluates to that bit of the variable's 32-bit word, for every index modulo 32 |
| ExpOperators.SumsAndProducts | db/exp.js:205-207 | sums and products obey the recursion that defines them, and differences undo sums |
| ExpOperators.Division | db/exp.js:208-209 | quotient and remainder are those of the division that rounds toward zero, for all operands, as 32-bit integers |
| ExpOperators.DivisionByZero | db/exp.js:208-209 | dividing by zero gives zero |
| ExpOperators.Bitwise | db/exp.js:210-212 | the results of and, or, exclusive or and complement are 32-bit integers with the right bits |
| ExpOperators.Shifts | db/exp.js:213-214 | every bit moves by the count modulo 32; zeros come in from the right and copies of the sign from the left |
| ExpOperators.Comparisons | db/exp.js:215-220 | of less, equal and greater exactly one is 1, and the other comparisons are their complements |
| ExpOperators.Logic | db/exp.js:221-222 | a conjunction is 1 if no side is 0, and De Morgan gives the disjunction |
| ExpEval.Collector.Visit | db/exp.js:653-705 | the collector adds the number of occurrences of every name, and fails exactly on a bit access |
| A64Frame.PrologEpilogInfo.Init | asmjit/arm/a64emithelper.cpp:257-308 | filling the pair arrays in place gives the pairs and the total size of the layout functions, no array or field overflowing |
| A64Frame.PairCountBound | asmjit/arm/a64emithelper.cpp:243-256 | a group never needs more than the 16 pairs there is room for |
| A64Frame.OrderCoversOnce | asmjit/arm/a64emithelper.cpp:260-303 | every register to save, and a preserved frame pointer with the link register, is saved exactly once |
| A64Layout.RegistersAreDisjoint | asmjit/arm/a64emithelper.cpp:260-303 | the saved words of different registers are disjoint and inside the save area |
| A64Layout.CdeclSize | asmjit/arm/a64func.cpp:52-67 | with the preserved masks of cdecl the save area has at most 176 bytes |
| A64Layout.CdeclIsEncodable | asmjit/arm/a64func.cpp:52-67 | then every prolog and epilog instruction can be encoded |
| A64Layout.EncodableWithinReach | asmjit/arm/a64emithelper.cpp:328-447 | in general the prolog can be encoded if and only if the area is within reach of the first store, the epilog if and only if it is one slot smaller |
| A64Layout.OnlyPrologEncodable | asmjit/arm/a64emithelper.cpp:328-447 | the prolog can be encoded and the epilog cannot if and only if the area is just as large as the reach |
| A64Layout.FullFrameHasNoEpilog | asmjit/arm/a64func.cpp:70-77 | such a frame within the masks of the other conventions: x4 to x30 and v4 to v20 take 512 bytes |
| A64Layout.FinalizeKeepsAlignment | asmjit/core/func.cpp:198-273 | whatever call and local stack a function asks for, at any alignment, finalize's adjustment has room for it and is a multiple of 16 |
| A64Layout.FinalizedFrameIsRestored | asmjit/core/func.cpp:198-273 | so prolog and epilog of a finalized frame run without a fault around any body that respects the stack, and restore the registers |
| A64Layout.FinalizeAgrees | asmjit/core/func.cpp:163-294 | the save size that finalize adds up equals the prolog's if and only if vector slots have 8 bytes or their number is even; otherwise it is 16 less |
| A64Layout.ArgumentOffsets | asmjit/core/func.cpp:271-291 | the offset of the stack arguments from the stack pointer leads to them if and only if the two sizes agree, and so does the one from the save area; the one from the frame pointer never does |
| A64Emit.EmitHelper.EmitProlog | asmjit/arm/a64emithelper.cpp:311-381 | the emitting loops append exactly the prolog, and succeed if and only if the adjustment fits 24 bits and all instructions can be encoded |
| A64Emit.EmitHelper.EmitEpilog | asmjit/arm/a64emithelper.cpp:384-448 | the same for the epilog, whose loops run backward |
| A64Restore.PrologRuns | asmjit/arm/a64emithelper.cpp:311-381 | the prolog runs without a misaligned stack pointer or an access below it, and leaves every saved register in its slot |
| A64Restore.EpilogUndoesProlog | asmjit/arm/a64emithelper.cpp:384-448 | after any body that respects the stack, the epilog runs without a fault and restores the stack pointer and the low 64 bits of every saved register; all else is as the body left it |
| A64Restore.ReturnsToCaller | asmjit/arm/a64emithelper.cpp:445-447 | if the link register is saved or untouched, control returns to the caller |
| A64Restore.FrameRecord | asmjit/arm/a64emithelper.cpp:359-361 | a preserved frame pointer points to a frame record: the caller's frame pointer and the return address |
| A64Words.SavedWords | asmjit/arm/a64emithelper.cpp:260-303 | after the prolog every saved register is where the numbers of the saved registers say: a preserved frame pointer and link register first, then the others by how many come before them, then the vector registers from the next multiple of 16 on, in pairs |
| A64Args.FuncDetail.InitFuncDetail | asmjit/arm/a64func.cpp:134-204 | the loop over the arguments writes the places of the layout function, the used registers and the stack size, or fails as it does |
| A64Args.RegistersInOrder | asmjit/arm/a64func.cpp:137-197 | the first eight integers, and independently the first eight floats and vectors, take registers 0 to 7 in order; all later ones go to the stack; a float or vector has just the size of its register, an integer has the smallest that holds it |
| A64Args.FailsExactly | asmjit/arm/a64func.cpp:168-184 | placing fails if and only if one of the first eight floats and vectors has a type without a register |
| A64Args.StackRanges | asmjit/arm/a64func.cpp:157-195 | stack arguments are in order and disjoint, those of 8 bytes or more at multiples of 8 |
| A64Args.StackSizeIsLeast | asmjit/arm/a64func.cpp:204-204 | the stack size is the least multiple of 8 that covers all stack arguments |
| A64Args.UniformArguments | asmjit/arm/a64func.cpp:157-163 | when the registers are taken, argument k of one type is at k times a stride: 8 bytes up to 64 bits, 4 bytes up to 32 bits with Apple's packing, 16 for 80-bit floats, and the size of wider vectors |
| A64Args.AppleAlignment | asmjit/arm/a64func.cpp:157-163 | with Apple's packing a small stack argument is at a multiple of 4 if and only if the last wide one before it is not an 80-bit float |
| A64Args.FloatAfterFloat80 | asmjit/arm/a64func.cpp:157-163 | it does happen: a signature whose 32-bit float is at offset 10 |
| A64Args.WideArguments | asmjit/arm/a64func.cpp:157-195 | for every signature, a stack argument of 8 bytes or more is right behind the 8-byte slots that the types before it take (with Apple's packing, behind their packed bytes), and so at a multiple of 16 if and only if the number of these slots is even |
| A64Args.VectorsAreAlignedTo8 | asmjit/arm/a64func.cpp:186-193 | the number can be odd: a signature whose 128-bit vector is at offset 8 |
| A64Args.StackIsSmall | asmjit/core/func.h:594-596 | stack offsets are at most 71 bytes per argument, and below 2^19 for 32 arguments, so they fit the signed 20 bits of the packed argument |
| A64Opcode.Instruction.AssignOpcode | db/aarch64.js:648-828 | the backward loop and the completion of the fields give the value and the fields of the scan function, and accept exactly the strings it accepts |
| A64Opcode.PartsTile | db/aarch64.js:662-790 | every bit below the width is covered by exactly one literal run or field slice |
| A64Opcode.SlicesAreParts | db/aarch64.js:764-789 | the slices recorded for a field are its parts of the string, at the bits they cover |
| A64Opcode.OpcodeValue | db/aarch64.js:669-677 | the value built from the right by signed shifts and ors, then normalized, is the 32-character text read from the left with zeros for the fields |
| A64Opcode.SizedFieldsTile | db/aarch64.js:706-710 | the slices of a field written with sizes only tile it from bit 0 |
| A64Opcode.FieldMask | db/aarch64.js:803-804 | the mask computed from a size covers exactly the field if and only if it has at most 30 bits |
| A64Fields.SizedField | db/aarch64.js:797-804 | a finished field that is written with sizes or by its name alone has the sum of its sizes as its bits, a repeated name counting once, and the mask of these bits if and only if there are at most 30 |
| A64Fields.PlacedField | db/aarch64.js:684-697 | a finished field that is written with ranges and single bits has the slices as written, a mask of just the bits in them, and reaches to the highest of these (places from 32 on wrap around, and a slice of 32 bits has no bit in the mask) |
| A64Opcode.SliceHoldsValue | db/aarch64.js:777-789 | in a word with values in the fields, every slice holds its part of the value, for all kinds of slices |
| A64Opcode.GatherUndoesScatter | db/aarch64.js:777-789 | gathering a field written with sizes only gives back the value that was put in |
| A64Opcode.GatherGivesBack | db/aarch64.js:762-789 | however a field is written, with ranges, single bits or sizes: gathering gives back every value of n bits if and only if each of these bits is in exactly one slice |
| SigMerge.OnlyDifferenceIsOnly | tools/tablegen-x86.js:1253-1263 | the operand that is merged is the only one that differs; there is none if all agree or two differ |
| SigMerge.MergesExactly | tools/tablegen-x86.js:1235-1270 | two rows merge if and only if modes, implicit count and number of operands agree, exactly one operand has other keys, and there the first has no register or all specific registers of the second have the kind of its last one; the merged row has the keys of both there, the first row's in front |
| SigMerge.MergeKeepsMeaning | tools/tablegen-x86.js:1235-1270 | a merged row accepts what one of the two rows accepts, and nothing else |
| SigMerge.EqualRowsAreNotMerged | tools/tablegen-x86.js:1264-1267 | rows with the same operands are not merged |
| SigMerge.MergeSymmetry | tools/tablegen-x86.js:1041-1074 | of two operands with specific registers of one kind each, either takes in the other or neither does, if and only if not both have registers with a specific one in only one of them |
| SigMerge.MergeIsAsymmetric | tools/tablegen-x86.js:1041-1074 | a pair that is merged one way only: a specific register and any register of its kind |
| SigMerge.MergeKeepsOneKind | tools/tablegen-x86.js:1041-1074 | merging keeps the specific registers of an operand at one kind |
| SigMerge.WhenMergeKeepsModifiers | tools/tablegen-x86.js:1235-1270 | with the flags told apart that qualify all alternatives of an operand, a merged row accepts what the two rows accept if and only if each row that can be used has its modifiers |
| SigMerge.UsableRowsNeedSameModifiers | tools/tablegen-x86.js:1660-1700 | for two rows that can be used, if and only if they have the same modifiers |
| SigMerge.MergeMixesModifiers | tools/tablegen-x86.js:1235-1270 | two rows that can be used, are merged, and lose their modifiers |
| SigEncoding.MergedEncoding | tools/tablegen-x86.js:1097-1204 | the types and the register mask emitted for merged flags are those of both together |
| SigEncoding.MasksDecide | asmjit/x86/x86instapi.cpp:152-181 | as the reader tests operands, joining two keeps what they accept if and only if their register masks fit: none has one, or both do and no register type of only one of them finds new bits, or the one without has no registers |
| SigEncoding.WhenMergeKeepsEncoding | tools/tablegen-x86.js:1235-1270 | an emitted row that was merged accepts what the two rows accept if and only if the masks of the joined operands fit, or another operand cannot be used at all |
| SigEncoding.SpecificNarrowsGeneral | tools/tablegen-x86.js:1041-1074 | a specific register that takes in any register of its kind narrows what is accepted, and never widens it |
| SigArray.OSignature.MergeWith | tools/tablegen-x86.js:1041-1074 | adds the flags of the other operand in place, or leaves them and says so |
| SigArray.ISignature.MergeWith | tools/tablegen-x86.js:1235-1270 | merges a row in place through its operand objects, or leaves it and says so |
| SigArray.SignatureArray.CompactRows | tools/tablegen-x86.js:1420-1437 | the nested loops that splice the array compute the compaction function on the rows; the operand objects change in place, and no two rows share one |
| SigCompact.CompactKeepsMeaning | tools/tablegen-x86.js:1420-1437 | the compacted rows accept exactly what the rows accepted |
| SigCompact.CompactKeepsModifiers | tools/tablegen-x86.js:1420-1437 | where the rows that look alike have the same modifiers, the compacted rows accept the same uses with modifiers told apart |
| SigCompact.CompactIsStable | tools/tablegen-x86.js:1420-1437 | afterwards no row can absorb a later one |
| SigCompact.NothingMayMerge | tools/tablegen-x86.js:1420-1437 | of the compacted rows no two meet the condition for merging, spelled out |
| SigCompact.CompactIsARun | tools/tablegen-x86.js:1420-1437 | the compacted rows come from the rows by a run of legal merges, one for each row that is gone, and no merge is left |
| SigCompact.CompactIsIdempotent | tools/tablegen-x86.js:1420-1437 | compacting again changes nothing |
| SigTable.InstSignatureTable.FindSignaturesIndex | tools/tablegen-x86.js:1469-1493 | the search through the positions of the first row finds the first contiguous run in the whole table, if there is any |
| SigTable.InstSignatureTable.IndexSignatures | tools/tablegen-x86.js:1495-1510 | appends the rows and keeps the position maps complete |
| SigTable.InstSignatureTable.AddInstruction | tools/tablegen-x86.js:1515-1562 | one instruction: its operands and rows are looked up or appended, its index is where they are; it fails exactly for no rows and an empty table |
| SigTable.InstSignatureTable.Run | tools/tablegen-x86.js:1450-1564 | at the end the slice of every instruction decodes to its own rows; the run fails exactly if there are instructions and none has a row |
| SigTable.LongestFirstSorts | tools/tablegen-x86.js:1512-1516 | the order in which instructions are added has each as often as it occurs, those with more rows first |
| SigTable.AddedSlice | tools/tablegen-x86.js:1515-1562 | after adding, the slice decodes to the rows, and the tables have only grown |
| SigTable.SliceStays | tools/tablegen-x86.js:1512-1562 | a slice keeps its meaning however the tables grow |
| SigTable.GrowsOnlyForNewRuns | tools/tablegen-x86.js:1552-1556 | the row table grows if and only if the rows are nowhere in it as a run |
| SigTable.EqualRowsAreShared | tools/tablegen-x86.js:1552-1556 | an instruction with the rows of an earlier one takes no space in either table, at any later time |
| NameTable.SmallRoundTrip | tools/tablegen.js:68-76 | a name of at most six of the 32 characters is decoded from its own 32-bit entry |
| NameTable.PackFields | tools/tablegen.js:177-187 | the four fields of an entry do not overlap; a suffix size of 8 to 15 modulo 16 sets the bit of small entries |
| NameSplit.SplitDecodes | asmjit/core/instdb.cpp:20-62 | an entry with prefix and suffix decodes to the two if and only if the suffix has at most 7 characters |
| NameSplit.IndexedNameWithAliases | asmjit/core/instdb.cpp:46-53 | when aliases are asked for, the entry of a name of at most 21 characters decodes to it if and only if its suffix is not at place 4095, or the text behind its prefix happens to repeat the name |
| NameSplit.AliasMarkWitness | asmjit/core/instdb.cpp:46-53 | a shared string and a name for which it does not |
| NameSplit.DecodesLater | asmjit/core/instdb.cpp:39-62 | what an entry decodes to stays the same when the shared string grows |
| NameSplit.IndexedNameDecodes | tools/tablegen.js:114-190 | the entry that indexing gives to a name of any size decodes to it if and only if at most 7 characters are behind the chosen cut; for names of at most 21 that is so |
| NameSplit.KnownPartsCostNothing | tools/tablegen.js:125-152 | if some tried cut has both parts in the shared string, the string does not grow |
| NameSplit.KnownPrefixSaves | tools/tablegen.js:153-161 | if a prefix of more than half of the name (of a short name all but two characters) is known at a cut that is tried, the shared string grows by at most the rest of the name |
| NameSplit.KnownSuffixSaves | tools/tablegen.js:162-166 | otherwise, for a suffix known at a cut that is tried of a name of at most 21 characters, it grows by at most what stands before the suffix, if and only if these are not two single characters |
| NameSplit.CutsAreLongest | tools/tablegen.js:125-152 | the cut search finds the longest known prefix, the longest known suffix and the longest prefix with both parts known |
| NameSplit.AloneUpTo22 | tools/tablegen.js:167-170 | alone in the string, a name of more than 15 characters decodes if and only if it has at most 22 |
| NameSplit.AliasedNameDecodes | tools/tablegen.js:77-86 | a name with an alias decodes if and only if it has at most 15 characters |
| NameSplit.AliasDecodes | asmjit/core/instdb.cpp:13-62 | then it is formatted as its alias if and only if that has at most the 32 characters of the reader's buffer |
| NameData.EveryNameDecodes | tools/tablegen.js:57-190 | for any names and aliases of the sizes that fit and a final string of at most 4096 characters, every entry decodes to its name, and below 4096 to its alias when aliases are asked for |
| NameData.ShortNamesAreEntries | tools/tablegen.js:68-77 | a name without an alias is its own entry if it has at most six of the 31 characters, and is left to be indexed otherwise; the shared string stays as it is |
| NameData.SharedStringBound | tools/tablegen.js:193-200 | the shared string is never longer than all strings offered to it |
| NameData.LongestFirstSorts | tools/tablegen.js:105-111 | names are indexed from the longest to the shortest |
| NameProgram.ChooseCut | tools/tablegen.js:114-175 | the loop over the cuts, with its early exits, gives the cut of the definition |
| NameProgram.InstructionNameData.Add | tools/tablegen.js:57-92 | adding a name updates the three tables as the definition says; the 5-bit characters are or-ed into one number |
| NameProgram.InstructionNameData.Index | tools/tablegen.js:94-191 | indexing fills every open entry in order, and only those |
| NameProgram.InstructionNameData.AddOrReferenceString | tools/tablegen.js:193-200 | returns the first place of the string, appending it only if it occurs nowhere |
| NameSearch.Find | asmjit/core/instdb.cpp:91-135 | the search loops, which decode the entries they look at, compute the search function; among ascending names they miss nothing |
| NameSearch.FoundAtPlace | asmjit/core/instdb.cpp:91-135 | in any order of the names, the search for a name ends at its place if and only if every place looked at on the way holds a name on the right side of it |
| NameSearch.SearchFinds | asmjit/core/instdb.cpp:91-135 | it finds a string if and only if some name with this spelling is reached in this way, repeated names or not |
| NameSearch.SearchFindsAll | asmjit/core/instdb.cpp:91-135 | all names of a stretch are found at their places if and only if each comes before the next |
| NameLookup.SpansOfLetters | tools/tablegen.js:588-610 | the loop over the names gives the first and the last one of each letter, and stops if and only if a name begins with anything else |
| NameLookup.FindInstruction | asmjit/core/instdb.cpp:73-109 | an instruction is searched for in the span of its first letter |
| NameLookup.LookupIsExact | asmjit/core/instdb.cpp:73-109 | whatever the order of the names, a string is found if and only if a name with this spelling is reached in the span of its first letter |
| NameLookup.LetterIsFound | asmjit/core/instdb.cpp:73-109 | every name of a letter is found if and only if the spelling of each is reached somewhere, and at its own place if and only if each is reached itself |
| NameLookup.AscendingSpanMissesNothing | asmjit/core/instdb.cpp:73-109 | in a span that ascends, a string is found if and only if it is a name |
| NameLookup.LookupCanMiss | asmjit/core/instdb.cpp:73-109 | names of which one is missed, because the span of its letter does not ascend |
| NameLookup.GenerateAndFind | asmjit/core/instdb.cpp:73-109 | generator and reader together, for names of the sizes that fit in any order: the generator stops if and only if a name does not begin with a letter; otherwise a string is found if and only if it is the name of some request that is reached, and in a span that ascends, if and only if it was added |
| Strings.CompareStringViews | asmjit/support/support.h:1278-1288 | the loop computes the lexicographic comparison of the two strings |
| StringPool.IndexedString.Index | tools/generator-commons.js:503-548 | the stored strings are sorted and are the needed keys, each once; at the place of every key the buffer holds the key and a zero |
| StringPool.IndexedString.GetIndex | tools/generator-commons.js:584-592 | once the strings are stored, the buffer holds the key and a zero at the place given, and reading up to the zero gives the key if and only if it has none; a key added later has the place -1; it stops if and only if nothing was stored or the key is unknown |
| StringPool.ReadText | tools/generator-commons.js:531-547 | reading the buffer up to a zero gives the key if and only if the key has no zero in it |
| StringPool.StoredKeys | tools/generator-commons.js:510-527 | a key is stored if and only if it is empty or ends no other key |
| StringPool.NothingIsStoredTwice | tools/generator-commons.js:511-529 | no stored string ends another one, except the empty one |
| StringPool.TheEmptyKeyIsStored | tools/generator-commons.js:512-515 | the empty key is stored although it ends every other |
| StringPool.EveryKeyEndsAStoredOne | tools/generator-commons.js:510-527 | every key ends a stored one |
| TaskRunner.TableGen.AddTask | tools/tablegen.js:393-410 | accepts a task if and only if its name is new and not empty and its dependencies are there; the tasks stay distinct and ordered |
| TaskRunner.TableGen.Run | tools/tablegen.js:412-439 | tasks that were added run in that order, in one pass, and cannot get stuck |
| TaskRunner.RunTasks | tools/tablegen.js:412-439 | for any tasks it ends; each name runs at most once and after its dependencies; it fails if and only if a name repeats or some names block each other, and then exactly the largest blocked set has not run |
| TaskRunner.BlockedNeverRuns | tools/tablegen.js:425-433 | in no run does a task of a blocked set run |
| LabelPicker.UsedLabels.NextLabel | asmjit-testing/bench/asmjit_bench_regalloc.cpp:179-192 | takes the drawn label unless used twice, else the first unused one in cyclic order; the scan ends whenever there is one |
| LabelPicker.SomeIsUnused | asmjit-testing/bench/asmjit_bench_regalloc.cpp:179-192 | fewer uses than labels leave a label unused |
| LabelPicker.PicksAreDetermined | asmjit-testing/bench/asmjit_bench_regalloc.cpp:179-192 | the draws determine the picks: two runs of the rule with the same draws pick the same labels |
| LabelPicker.PickAll | asmjit-testing/bench/asmjit_bench_regalloc.cpp:194-233 | whatever is drawn, every pick of the loop ends, follows the rule, and no label is picked more than twice |
| Xorshift.Random.Reset | asmjit-testing/commons/random.h:29-42 | seeding leaves both words different from zero |
| Xorshift.Random.NextUInt64 | asmjit-testing/commons/random.h:48-61 | one call makes one step and returns the sum of the words |
| Xorshift.StepIsABijection | asmjit-testing/commons/random.h:48-61 | a step maps the pairs of words one to one onto themselves |
| Xorshift.RunsStayApart | asmjit-testing/commons/random.h:48-61 | different states stay different, however many steps are made |
| Xorshift.ZeroIsNeverReached | asmjit-testing/commons/random.h:48-61 | a run is in the state of zeros if and only if it began there |
| Xorshift.SeededRunsAreSafe | asmjit-testing/commons/random.h:29-61 | from no seed does any number of steps lead to the state of zeros |
| Xorshift.FirstNumbers | asmjit-testing/commons/random.h:29-60 | the seed 0 gives the first two words of splitmix64, and the first step from there the expected state |
| EnumIndex.StringifyEnum | tools/enumgen.js:158-229 | the loops give the names, the index and its type of the definition, and stop at a name without the prefix |
| EnumIndex.TypeFor | tools/enumgen.js:137-144 | the index type is the smallest one that has room for the text |
| EnumIndex.TablesAreRight | tools/enumgen.js:158-217 | for different, non-negative values the index leads from each value to its zero-terminated name, from each gap and the value after the largest to `<Unknown>`, and fits its type |
| EnumIndex.PositionsAreValues | tools/enumgen.js:198-208 | every entry is at the position of its value if and only if the values differ and are not negative |
| EnumInject.InjectEnumsToSource | tools/enumgen.js:355-404 | the loop over pairs of markers with its running shift computes the injection function |
| EnumInject.InjectFrom | tools/enumgen.js:379-400 | after any number of pairs the shift aligns the old marker places with the rewritten text |
| EnumInject.IndentationIs | tools/enumgen.js:389-394 | the indentation of a marker is what stands in its line before the first slash |
| EnumInject.InjectReplacesBodies | tools/enumgen.js:355-404 | the text between each pair is replaced by what is generated for it, with the indentation of its marker; all other text stays in order |
| EnumInject.InjectTwice | tools/enumgen.js:355-404 | injecting twice gives the same as once if the generated text has no markers |
| EnumInject.ReplaceFails | tools/enumgen.js:379-388 | one pair, anywhere and at any shift, fails if and only if there is no newline between its markers but one later, or nothing is generated for it |
| EnumInject.ReplaceKeepsText | tools/enumgen.js:379-396 | it keeps the text before the begin marker, whatever is generated, if and only if there is a newline behind the marker or nothing before it |
| EnumInject.InjectFails | tools/enumgen.js:355-404 | for markers anywhere, and a generator that succeeds or fails by the enumeration alone, the whole injection fails if and only if they do not pair up, or some pair has no newline between its markers in the original text but one later, or nothing can be generated for some begin marker |
| EnumInject.InjectKeepsText | tools/enumgen.js:355-404 | otherwise it keeps the text before the first marker, whatever is generated, if and only if there is a newline behind the last begin marker or nothing before the first one |

## Left out

- Ternary operators: the code never builds one, so the model has only its errors.
- Fractions and exponents: such literals keep their spelling; their conversion to floating point is not modelled.
- Integers beyond 2^53: literals and values are unbounded integers, the rounding of larger numbers is not modelled.
- Token positions in error messages, and the formatting contexts of the printer.
- `clone` of expression nodes: it copies the wrong field of a unary node.
- ExpPrinter.RoundTrip: names are identifiers and numbers are integers, since a name or a fraction built by hand can print as anything.
- Branch target identification (a no-op here), page probing, register moves and argument moves of the AArch64 helper.
- The upper halves of saved vector registers: the convention does not preserve them, and restoring clears them in this model.
- Memory addresses are unbounded integers; wrap-around of the address space is not modelled.
- Return values and variable arguments of a function: finite tables and a counter.
- A64Opcode.Instruction.AssignOpcode: starts from the parts of an opcode string; splitting the string at its bars, and quoted fields, are outside the model.
- Operand patterns and immediate sizes of AArch64 instructions.
- SigMerge.MergeKeepsMeaning: counts every flag as an alternative, WhenMergeKeepsModifiers tells the modifiers apart and SigEncoding has the emitted masks; kind and index of a register name are uninterpreted functions, the database of registers is data.
- SigCompact.CompactKeepsMeaning: counts every flag as an alternative too; what the emitted masks make of whole compactions is left to the single merges of SigEncoding.
- SigEncoding.WhenMergeKeepsEncoding: the types and masks of flags are uninterpreted functions; the base flag of memory operands, which the reader tests as well, is a modifier.
- Implicit memory sizes, name-specific exceptions, instruction tables and read-write categories of the x86 generator.
- The text formatting of all generated C++ tables, and the counters in their comments.
- An alias of more than 255 characters: its size is cut to a byte here, where the generator would write a malformed escape. From 33 characters on the reader's buffer overflows, which is a failure here.
- Instruction ids are unbounded: the 16 bits of a span, and the maximum name length beside the spans, are not modelled.
- The order in which a JavaScript object enumerates integer-like keys: the keys of the string pool and the enumerations come as a list in any order.
- SigCompact.CompactKeepsModifiers: goes one way; rows that lose their modifiers in one merge may have them back from another row.
- EnumInject.InjectReplacesBodies: what counts as a marker is an uninterpreted function of a line, and markers are on lines of their own, with a comment in the line of the begin marker.
- `IndexedArray` and the counting of references: a map from items to their positions.
- `next_uint32` and `next_double` of the generator: a shift and a reinterpretation of bits.
- The parts of AsmJit with no row above: register allocation, code holders, allocators and emitters.
