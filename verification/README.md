# Verified model of the engine's grammar, batch, output, restore and NPU scheduling logic

This project models five parts of the inference engine and proves what they promise. Each part is a
group of modules.

**Grammar-constrained generation** (`grammar*.dfy`, `gbnf*.dfy`, `left_recursion.dfy`,
`rule_graphs.dfy`, `utf8*.dfy`, `char_class.dfy`, `decimals.dfy`). A grammar text is read and translated to flat rules, with fresh rules for groups and
repetitions; left recursion is rejected; a set of stacks of grammar positions is run over the text, once
to mask candidate tokens and once to commit one, with UTF-8 cut anywhere. The languages are defined
independently of the machine, by derivation trees over flat rules (`GrammarRules.InLang`) and over the
surface grammar (`Gbnf.Denotes`). The main results:

- a concrete syntax of grammar texts (`gbnf_syntax.dfy`), and that the reader reads exactly the texts of this
  syntax, each as what it means (`ReadsExactlySpellings`); what repetition marks mean (`MarkMeans`, `MarkedRule`);
- exactly which grammars the translation refuses (`FailsIffRefused`);
- the translation preserves meaning (`ParsePreservesMeaning`), the machine accepts the language of the rules
  (`StacksRunLanguage`, `TextTheorem`), and both together (`EngineTheorem`);
- a generation of any length is free of exceptions while no piece that is let through holds a NUL, and the
  text of the committed pieces is a sentence when the sampler ends it (`Generate`, `GenerateByText`);
- from the rules alone, exactly when the stack expansion ends and finds a stack (`EndsIffNoCycle`,
  `SettlesIffRest`, `WorkableIff`), what the left-recursion search reports and what it misses (`DetectAll`,
  `ReportedIffCycle`, `MissedCycle`);
- exactly when masking and committing agree on a piece (`AgreesIffNoNul`, `MaskDecidesAccept`,
  `TokenAndStrAgree`), and that the mask never hides what a sentence can go on with (`PossibleIsLetThrough`);
- what decoding makes of any bytes, and exactly which pieces are invalid (`DecodesPieces`, `InvalidIffWrongByte`).

**Batch splitting** (`batch*.dfy`). A batch of tokens with sets of sequence ids is cut into
micro-batches by three strategies, one of them with rollback. The main results: every run partitions the
batch (`RunSimple`, `RunEqual`, `RunSeq`), the exact shape of an equal split (`SplitEqual` with
`EqualSplit`, `EqualSize`, `EqualSets`), the tail guarantee over whole runs (`RunEqual`), and the
fallback from one strategy to the other (`InitBatch`).

**Output rows** (`row_swaps.dfy`, `output_order.dfy`, `outputs.dfy`). Rows come back in split order; a
selection sort records exchanges that are made when the output is first read, and rows of all tokens are
put in place by following cycles. The main results: the split order does not matter (`DecodeAndGet`),
and the sort records as few exchanges as possible (`FewestExchanges`).

**State restore** (`state_restore.dfy`). Saved chunks are copied into differently cut target chunks with
two cursors (`Restore`, `CursorAgrees`).

**NPU scheduling** (`npu_*.dfy`). A graph is cut into packages that are validated, run on the NPU and
cached. The main results: a package has one key (`OneDescription`), the key determines what its plan
computes (`KeyDeterminesValues`) and is determined by its printed form (`LookupByText`), the cache
invariants under any interleaving (`Interfere`), what one try leaves in the cache (`LeavesMeans`), and which device
computes what in a run and the values it leaves (`HarmonyNpuCompute`, `LargeIsTried`, `TrustedByNpu`,
`SettledValues`).

## Reading the model

- Pointers into rules are pairs of a rule and an index; buffers are sequences or arrays; sizes are
  unbounded, except that the 64-bit wrap-around of a repetition whose upper bound is below the lower one
  is written out (`OptCount`).
- Exceptions and error returns are result values. An assertion that aborts the original is a
  precondition (`n_ubatch > n_keep_tail`) or is proved to hold.
- Functions give the specification of the methods that model loops and updates in place; the results are
  then lemmas about those functions.
- `AdvanceStack` takes a finite set of stacks closed under expansion as ghost argument: it exists exactly
  if the worklist ends. `EndsIffNoCycle` says for which rules it does, `RankableUniverse` gives a
  simpler sufficient condition.
- What is asked of the rules of a grammar is asked of some set of them that holds the start rule and
  whatever it refers to (`WorksFrom`); rules outside do not matter.
- The memory of a graph is one cell per tensor: buffers of different nodes do not overlap. `Job.ran` is a
  ghost record, written where the CPU has computed a range and where the NPU's results have been copied; `Job.tried`
  records the packages tried, and `Job.ends` the failures of the CPU and the requests of the abort callback.
- The neural network, the NPU, the abort callback, the cache children's `prepare` and other threads are
  parameters: scripts that answer every question in any way. The NPU is assumed to compute what the CPU
  does for a key whose plan has passed the comparison; nothing is assumed about other plans.

## Where the code does less than it says

- The left-recursion check knows only rules with a literally empty alternate. `HiddenText`, `HiddenPasses`
  and `HiddenDiverges` give a grammar text that passes and on which the expansion does not end, and
  `UnitLoopText` and `UnitLoopWorks` one that is reported although it does no harm; `EndsIffNoCycle` and
  `ReportedIffCycle` are the exact conditions. `UnsettledText` and `UnsettledPasses` give a text that passes
  and leaves no stack, on which the assertion of `reject_candidates` fails; `SettlesIffRest` is the exact
  condition, and `WorkableIff` puts both together.
- White space behind `::=` and `|` may contain line ends, so a rule that ends there and is not the last
  takes the next line for its own and the text is refused (`RoundTrip` has the exact condition).
- A root name that occurs only in a reference removed by `{0}` is in the symbol table without a rule
  (`DroppedRootText`); `StartInRange` has the exact condition.
- For negated classes `match_partial_char` asks for every completion to be allowed, not for some
  (`NegatedNeedsAll`, `NegatedRejectsTooMuch`); `NegatedExactIffAlike` has the exact condition on which that
  is the same.
- Masking and committing differ for a token terminal in the middle of a piece
  (`TokenTerminalDisagrees`), for an overlong NUL (`OverlongNulDisagrees`; `AgreesIffNoNul` has the exact
  condition on the piece), and `accept_token` and
  `accept_str` differ on the empty stack for a piece without a complete code point
  (`TokenDropsEmptyStack`).
- The end of generation is allowed by the stacks alone. Bytes of an unfinished character may be pending
  then (`EndsMidCharacter`); the sentence is the text of the finished ones (`Generate`). For pieces that
  begin the encoding of some text, they are the encoding of the sentence exactly if nothing is pending
  (`NothingPending`).
- An equal split may exceed the limit by one (`EqualSize`, `OneOver`).
- The comment on partial sequence sub-sets in `init` describes a check that never fires
  (`CheckSequences`, `PartialSubsetPasses`).
- The simple split does not look at used tokens after the first unused one, so it is right only when
  none follow (`SplitSimple`).

## Model

| member | source | states |
|---|---|---|
| `Gbnf.UpperIsAsWritten` | `entry/src/main/cpp/engine/llama-grammar.cpp:649-661` | for a lower bound up to 2000, the bound in effect for a repetition is the bound written if and only if lower <= upper <= 2000 (a larger upper bound is dropped, one below the lower bound wraps) |
| `GbnfSymbols.GeneratedIsFresh` | `entry/src/main/cpp/engine/llama-grammar.cpp:426-430` | the name made for a new rule is never in the symbol table: no name of the text and no earlier generated name equals it |
| `GbnfParser.Parser.GetSymbolId` | `entry/src/main/cpp/engine/llama-grammar.cpp:420-424` | an unknown name gets the next id, a known one keeps its id; the rules stay |
| `GbnfParser.Parser.GenerateSymbolId` | `entry/src/main/cpp/engine/llama-grammar.cpp:426-430` | the table gains base + "_" + id, for the next id |
| `GbnfParser.Parser.AddRuleAt` | `entry/src/main/cpp/engine/llama-grammar.cpp:432-437` | the rule list is padded up to the id and the rule stored there |
| `GbnfParser.Parser.HandleRepetitions` | `entry/src/main/cpp/engine/llama-grammar.cpp:467-532` | the item at the end of the rule is replaced by its required copies and a reference to the rules added for the optional ones, as the translation says; RepetitionLanguage and FailsIffRefused say what that means |
| `GbnfParser.Parser.ParseLiteral` | `entry/src/main/cpp/engine/llama-grammar.cpp:535-547` | the open rule gets the characters that the literal spells; failure exactly if it cannot be read |
| `GbnfParser.Parser.ParseClass` | `entry/src/main/cpp/engine/llama-grammar.cpp:548-577` | the items of a class are appended with their element types (first one positive or negated, then alternatives and upper range ends); failure exactly if the class cannot be read |
| `GbnfParser.Parser.ParseGroup` | `entry/src/main/cpp/engine/llama-grammar.cpp:597-610` | a group does to symbols and rules what translating its alternates under a generated name does, and is weighed by the symbols it added |
| `GbnfParser.Parser.ParseMark` | `entry/src/main/cpp/engine/llama-grammar.cpp:616-662` | a repetition mark is read with its bounds and applied to the item before it; failure for a bound that is missing, too large or ill-formed |
| `GbnfParser.Parser.ParseSequence` | `entry/src/main/cpp/engine/llama-grammar.cpp:456-668` | reading and translating a sequence in one pass does to symbols, rules and the open rule what reading it first and translating the result does, failure included |
| `GbnfParser.Parser.ParseAlternates` | `entry/src/main/cpp/engine/llama-grammar.cpp:439-454` | the same for alternates, and their rule is stored at the id given |
| `GbnfParser.Parser.ParseRule` | `entry/src/main/cpp/engine/llama-grammar.cpp:670-692` | the same for a rule: its name, its alternates and the end of its line |
| `GbnfParser.Parser.Parse` | `entry/src/main/cpp/engine/llama-grammar.cpp:694-726` | accepted exactly if the text can be read and translated and every rule is defined and refers to defined rules; otherwise no rules are left |
| `GbnfParser.FailedItemFails` | `entry/src/main/cpp/engine/llama-grammar.cpp:534-666` | an item that cannot be translated makes the sequence fail, whatever follows it in the text |
| `GbnfRoundTrip.RoundTrip` | `entry/src/main/cpp/engine/llama-grammar.cpp:94-726` | for every printable surface grammar: reading its text gives it back if every definition but the last ends in an alternate that is not empty, and fails otherwise |
| `GbnfRoundTrip.RawCharMeansItself` | `entry/src/main/cpp/engine/llama-grammar.cpp:19-32` | a character other than the backslash and the one that ends its place, encoded as section 3 of RFC 3629 says, is a spelling of its code point |
| `GbnfRoundTrip.ReadOpenRule` | `entry/src/main/cpp/engine/llama-grammar.cpp:670-692` | a rule that ends behind ::= or a bar and is not the last takes the name of the next rule for its own item, stops at the sign behind it and is refused |
| `GbnfSpelled.ReadsExactlySpellings` | `entry/src/main/cpp/engine/llama-grammar.cpp:94-726` | reading a text gives these definitions and ends there if and only if the text up to there spells them and ends: white space, comments, raw, hexadecimal and escaped characters, both forms of tokens, all marks and line ends included |
| `GbnfReads.ReadsChar` | `entry/src/main/cpp/engine/llama-grammar.cpp:102-184` | every spelling of a character is read as the code point it means: raw bytes, two, four or eight hexadecimal digits in either case, and each escape |
| `GbnfReads.ReadsToken` | `entry/src/main/cpp/engine/llama-grammar.cpp:186-234` | both forms of a token are read: the number in brackets, and the text that the vocabulary knows |
| `GbnfReads.ReadsMark` | `entry/src/main/cpp/engine/llama-grammar.cpp:616-662` | every repetition mark is read with the bounds it means, with any white space in and behind it: none or more for a star, one or more for a plus, none or one for a question mark, and the numbers in braces |
| `GbnfSpelled.SpaceIsGap` | `entry/src/main/cpp/engine/llama-grammar.cpp:125-138` | what is skipped as white space is a run of blanks and comments, and it is all there is |
| `GbnfMarks.MarkMeans` | `entry/src/main/cpp/engine/llama-grammar.cpp:467-532` | an item with a mark means exactly the words made of as many words of the item as the mark asks for: at least one for a plus, any number for a star, at most one for a question mark |
| `GbnfMarks.MarkedRule` | `entry/src/main/cpp/engine/llama-grammar.cpp:534-726` | the text of a rule with one marked item, however item and mark are spelled, is read, and its name means exactly those words |
| `GbnfLimits.FailsIffRefused` | `entry/src/main/cpp/engine/llama-grammar.cpp:456-668` | the translation fails if and only if the surface grammar has an empty item before a mark, a lower bound above 2000, or a repetition whose number times the weight of its item exceeds 2000, where a group weighs the symbols it adds and nested repetitions multiply |
| `GrammarText.ReadTextGood` | `entry/src/main/cpp/engine/llama-grammar.cpp:140-149` | names that are read consist of word characters, which keeps them apart from generated names |
| `GbnfRepetition.RepetitionLanguage` | `entry/src/main/cpp/engine/llama-grammar.cpp:467-532` | a word is generated by the rewritten repetition exactly if it is k copies of words of S for some admitted k, for the bounded, unbounded and optional forms |
| `GbnfCorrect.ItemCorrect` | `entry/src/main/cpp/engine/llama-grammar.cpp:439-668` | for every item, nested groups and repetitions included, the elements produced generate exactly the words that the item means |
| `GbnfParse.ParsePreservesMeaning` | `entry/src/main/cpp/engine/llama-grammar.cpp:439-726` | the rule of every defined name generates exactly the words that the definitions mean by the name (a later definition replaces an earlier one) |
| `GbnfParse.ParsedIsWellFormed` | `entry/src/main/cpp/engine/llama-grammar.cpp:694-726` | what parse accepts has the element format that the machine relies on, so the abort branches of the machine are unreachable for it |
| `GbnfCompile.CompileItemValid` | `entry/src/main/cpp/engine/llama-grammar.cpp:420-437` | translation keeps the symbol table injective and without gaps and never redefines a rule that an earlier id has |
| `GrammarText.StartInRange` | `entry/src/main/cpp/engine/llama-grammar.cpp:1228-1242` | for an accepted grammar whose table has the root name, the root rule exists if and only if the root name is defined |
| `GrammarText.DroppedRootText` | `entry/src/main/cpp/engine/llama-grammar.cpp:1228-1271` | a concrete grammar text that is accepted and knows the root name although no rule has its id |
| `GrammarMachine.ScanToEnd` | `entry/src/main/cpp/engine/llama-grammar.cpp:912-915` | stops at the first end of an alternate from the given position on |
| `GrammarMachine.PushExpansions` | `entry/src/main/cpp/engine/llama-grammar.cpp:897-923` | adds to the worklist, for every alternate of the referenced rule and no other, the stack with the reference replaced by the alternate |
| `GrammarMachine.AdvanceStack` | `entry/src/main/cpp/engine/llama-grammar.cpp:860-942` | adds to the list exactly the settled stacks (empty or topped by a terminal) reachable by leftmost expansion, without duplicates; it ends whenever finitely many stacks are reachable |
| `GrammarMachine.ReachSound` | `entry/src/main/cpp/engine/llama-grammar.cpp:873-941` | a word derived from a reached stack is derived from the stack one started with |
| `GrammarMachine.ReachComplete` | `entry/src/main/cpp/engine/llama-grammar.cpp:873-941` | every derivation from a stack goes through some settled stack reached from it |
| `GrammarMachine.AdvanceLanguage` | `entry/src/main/cpp/engine/llama-grammar.cpp:860-942` | the language of a stack is the union of the languages of the settled stacks reached from it |
| `GrammarTermination.RankGivesWeight` | `entry/src/main/cpp/engine/llama-grammar.cpp:877-941` | a rank that falls along left corners yields weights under which every rule is heavier than the work of each of its alternates |
| `GrammarTermination.ExpansionLowersWork` | `entry/src/main/cpp/engine/llama-grammar.cpp:897-923` | under such weights every expansion of a stack lowers its work, counted from the top down through nullable positions |
| `GrammarTermination.RankableUniverse` | `entry/src/main/cpp/engine/llama-grammar.cpp:860-942` | with such a rank the stacks reachable from any stack form a finite closed set, so advance_stack ends |
| `GrammarTermination.RankableSettles` | `entry/src/main/cpp/engine/llama-grammar.cpp:948-948` | with such a rank some settled stack is always reached: advance_stack never returns nothing, as the assertion of reject_candidates needs |
| `LeftRecursion.FollowsIffCorner` | `entry/src/main/cpp/engine/llama-grammar.cpp:963-1014` | the positions that the search follows are the left corners with respect to rules that have a literally empty alternate |
| `LeftRecursion.HasEmptyAlternate` | `entry/src/main/cpp/engine/llama-grammar.cpp:980-990` | true exactly if some alternate is literally empty |
| `LeftRecursion.Detect` | `entry/src/main/cpp/engine/llama-grammar.cpp:963-1014` | the search ends; without a finding the visited rules have ranks that fall along the followed references, and a finding excludes every rank |
| `LeftRecursion.DetectAll` | `entry/src/main/cpp/engine/llama-grammar.cpp:1255-1267` | left recursion is reported if and only if no rank exists |
| `LeftRecursion.VerdictTransfers` | `entry/src/main/cpp/engine/llama-grammar.cpp:963-1014` | a sufficient condition: if the rules with a literally empty alternate are all the nullable ones, a clean verdict means that advance_stack ends and finds a stack |
| `GrammarCorners.NullableIsLeast` | `entry/src/main/cpp/engine/llama-grammar.cpp:860-942` | the rules that derive the empty word, through which left corners are counted, are the smallest set that holds every rule with an alternate of such rules only |
| `GrammarHeights.EndsIffBounded` | `entry/src/main/cpp/engine/llama-grammar.cpp:860-942` | advance_stack ends on every stack in a set of rules closed under references if and only if these rules have heights that do not rise along left corners and fall where something follows the reference |
| `GrammarHeights.EndsIffNoCycle` | `entry/src/main/cpp/engine/llama-grammar.cpp:860-942` | advance_stack ends on every stack if and only if no left corner with something behind it in its alternate lies on a cycle of left corners |
| `GrammarVerdict.ReportedIffCycle` | `entry/src/main/cpp/engine/llama-grammar.cpp:963-1014` | left recursion is reported if and only if the references that the search follows make a cycle |
| `GrammarVerdict.MissedCycle` | `entry/src/main/cpp/engine/llama-grammar.cpp:963-1014` | if a grammar passes the check and advance_stack does not end on it, a growing cycle of left corners passes through a reference that the search does not follow |
| `GrammarVerdict.PassingEnds` | `entry/src/main/cpp/engine/llama-grammar.cpp:963-1014` | if no left corner outside the references followed lies on a cycle, a clean verdict means that advance_stack ends |
| `GrammarSettling.SettlesIffRest` | `entry/src/main/cpp/engine/llama-grammar.cpp:944-948` | advance_stack finds a stack from everywhere if and only if every rule derives the empty word or leads through left corners to a rule with a terminal that can stand first |
| `GrammarSettling.WorkableIff` | `entry/src/main/cpp/engine/llama-grammar.cpp:860-961` | the rules on which advance_stack always ends with at least one stack are exactly those without a growing cycle of left corners in which every rule derives the empty word or leads to such a terminal |
| `GrammarSettling.WorksFromIff` | `entry/src/main/cpp/engine/llama-grammar.cpp:860-961` | what Init asks of a grammar that passes the check holds if and only if the rules that the start rule refers to, directly or through others, meet these two conditions |
| `GrammarExamples.HiddenText` | `entry/src/main/cpp/engine/llama-grammar.cpp:1228-1267` | the text of root, with the alternates a root "z" and "y", and a ::= "x"* is accepted and translated to the rules of the three lemmas below |
| `GrammarExamples.HiddenPasses` | `entry/src/main/cpp/engine/llama-grammar.cpp:980-1014` | these rules, left-recursive behind a rule that is nullable without a literally empty alternate, pass the check |
| `GrammarExamples.HiddenDiverges` | `entry/src/main/cpp/engine/llama-grammar.cpp:860-942` | for them no finite set of stacks is closed under expansion, so advance_stack does not end |
| `GrammarExamples.HiddenHasCycle` | `entry/src/main/cpp/engine/llama-grammar.cpp:860-942` | the condition they fail: the reference to root in its own rule is a left corner with something behind it |
| `GrammarExamples.OtherStartWorks` | `entry/src/main/cpp/engine/llama-grammar.cpp:1228-1289` | started from a, which does not use root, the same rules keep the machine going |
| `GrammarExamples.StarText` | `entry/src/main/cpp/engine/llama-grammar.cpp:1228-1267` | the text root ::= ws "x" with ws ::= " "* is accepted and translated to the rules of StarWorks |
| `GrammarExamples.StarWorks` | `entry/src/main/cpp/engine/llama-grammar.cpp:963-1014` | these rules pass the check and advance_stack always ends with a stack, although ws is nullable without a literally empty alternate |
| `GrammarExamples.UnitLoopText` | `entry/src/main/cpp/engine/llama-grammar.cpp:1228-1267` | the text of root, with the alternates root and "y", is accepted and translated to the rules of UnitLoopWorks |
| `GrammarExamples.UnitLoopWorks` | `entry/src/main/cpp/engine/llama-grammar.cpp:963-1014` | these rules are reported although advance_stack always ends with a stack on them |
| `GrammarExamples.UnsettledText` | `entry/src/main/cpp/engine/llama-grammar.cpp:1228-1267` | the text root ::= q root with q ::= e and an empty e is accepted and translated to the rules of UnsettledPasses |
| `GrammarExamples.UnsettledPasses` | `entry/src/main/cpp/engine/llama-grammar.cpp:944-1014` | these rules pass the check and advance_stack ends on them without any stack; root fails the condition, as it neither derives the empty word nor leads to a terminal |
| `GrammarState.ConsumesLanguage` | `entry/src/main/cpp/engine/llama-grammar.cpp:1024-1048` | a settled stack accepts c followed by w exactly if some stack that accept_chr makes of it accepts w |
| `GrammarState.AcceptChr` | `entry/src/main/cpp/engine/llama-grammar.cpp:1024-1048` | the stacks after one code point: exactly those reached by matching the top class and advancing the rest |
| `GrammarState.AcceptOnAll` | `entry/src/main/cpp/engine/llama-grammar.cpp:1050-1059` | the same for all stacks |
| `GrammarState.AcceptSequence` | `entry/src/main/cpp/engine/llama-grammar.cpp:1461-1474` | the stacks after a sequence of code points are those that some run over the sequence leads to |
| `GrammarState.StacksRunLanguage` | `entry/src/main/cpp/engine/llama-grammar.cpp:1024-1059` | after any code points the stacks accept exactly the continuations that the stacks before accept with the code points in front (the derivative of the language) |
| `GrammarState.StacksRunConcat` | `entry/src/main/cpp/engine/llama-grammar.cpp:1024-1059` | running over a text in one go and in two parts leaves the same stacks |
| `Grammar.InitialStacks` | `entry/src/main/cpp/engine/llama-grammar.cpp:1269-1289` | the initial stacks are those reached from the alternates of the start rule |
| `Grammar.InitialLanguage` | `entry/src/main/cpp/engine/llama-grammar.cpp:1269-1289` | together they accept exactly the language of the start rule |
| `Grammar.CompleteIffEmptyStack` | `entry/src/main/cpp/engine/llama-grammar.cpp:1366-1372` | when the stacks track a text, one of them is empty exactly if the text is a complete sentence |
| `Grammar.LlamaGrammar.constructor` | `entry/src/main/cpp/engine/llama-grammar.cpp:1269-1318` | the new object tracks the empty text |
| `Grammar.LlamaGrammar.Accept` | `entry/src/main/cpp/engine/llama-grammar.cpp:1050-1059` | a tracked text stays tracked with the code point appended |
| `Grammar.LlamaGrammar.AcceptStr` | `entry/src/main/cpp/engine/llama-grammar.cpp:1461-1474` | the stacks run over the complete code points of the piece, the pending bytes are kept, and it fails exactly if no stack is left |
| `Grammar.LlamaGrammar.AcceptToken` | `entry/src/main/cpp/engine/llama-grammar.cpp:1476-1529` | for every stack, a token terminal on top is compared with the token and any other stack runs over the code points of the piece; it fails exactly if no stack is left |
| `Grammar.LlamaGrammar.AllowEog` | `entry/src/main/cpp/engine/llama-grammar.cpp:1366-1372` | end of generation is allowed exactly if the tracked text is in the language of the start rule |
| `Grammar.LlamaGrammar.Apply` | `entry/src/main/cpp/engine/llama-grammar.cpp:1359-1400` | an entry is masked exactly if it ends generation and no stack is empty, or has no text, or every stack rejects it |
| `GrammarInit.Init` | `entry/src/main/cpp/engine/llama-grammar.cpp:1134-1213` | null exactly for an undefined reference or a reported left recursion; otherwise an object that tracks the empty text |
| `GrammarText.InitText` | `entry/src/main/cpp/engine/llama-grammar.cpp:1215-1319` | the same for a grammar text: null exactly if the text is not accepted, the root name does not occur, or left recursion is reported |
| `GrammarInit.TextTheorem` | `entry/src/main/cpp/engine/llama-grammar.cpp:1461-1474` | text encoded in UTF-8 and handed to accept_str in any pieces: afterwards exactly the completions of the text are accepted, and a stack is empty exactly if the text is a sentence |
| `GrammarText.EngineTheorem` | `entry/src/main/cpp/engine/llama-grammar.cpp:860-1474` | the whole engine: for a parsed grammar and a text in any pieces, generation may end exactly if the definitions mean the text by the root name |
| `GrammarMask.TokenItemTakes` | `entry/src/main/cpp/engine/llama-grammar.cpp:845-857` | on a stack topped by what a token terminal of the text is translated to, a token is taken exactly if it is the one named, or for the negated form exactly if it is another one, and what follows the terminal remains |
| `GrammarMask.TokenItemLetThrough` | `entry/src/main/cpp/engine/llama-grammar.cpp:1081-1093` | the mask says the same of a token with text |
| `GrammarMask.TokenItemLast` | `entry/src/main/cpp/engine/llama-grammar.cpp:1476-1529` | where the terminal ends its rule and nothing is below, such a token completes the sentence |
| `GrammarMask.EogIffSentence` | `entry/src/main/cpp/engine/llama-grammar.cpp:1366-1390` | an end of generation is let through exactly if the text so far is a sentence |
| `GrammarMask.PossibleIsLetThrough` | `entry/src/main/cpp/engine/llama-grammar.cpp:1359-1400` | a piece of text with which some sentence can go on is let through |
| `GrammarMask.WrongByteIsMasked` | `entry/src/main/cpp/engine/llama-grammar.cpp:1359-1400` | a piece with a byte that is wrong where it stands is masked, whatever the grammar |
| `GrammarMask.OwedByteComesFirst` | `entry/src/main/cpp/engine/llama-grammar.cpp:1359-1400` | while bytes are owed, only pieces that begin with a continuation byte are let through |
| `Grammar.InitialNotEmpty` | `entry/src/main/cpp/engine/llama-grammar.cpp:1269-1289` | there is always an initial stack |
| `GrammarSampling.KnowsOn` | `entry/src/main/cpp/engine/llama-grammar.cpp:1476-1529` | committing a token keeps what the stacks know of the text, also when it leaves bytes pending or completes no character |
| `GrammarSampling.AcceptImpl` | `entry/src/main/cpp/engine/llama-grammar.cpp:1449-1458` | an end of generation is taken exactly on an empty stack and aborts otherwise, without a change; any other token throws exactly if no stack is left |
| `GrammarSampling.UnmaskedIsAccepted` | `entry/src/main/cpp/engine/llama-grammar.cpp:1359-1529` | a token that the mask lets through leaves a stack when it is committed |
| `GrammarSampling.Turn` | `entry/src/main/cpp/engine/llama-grammar.cpp:1359-1459` | one turn: a proposal that the mask lets through is committed as accept_token does it, a masked one changes nothing, and an end of generation finds an empty stack |
| `GrammarSampling.RunningOn` | `entry/src/main/cpp/engine/llama-grammar.cpp:1449-1459` | a turn extends the record of the generation: the text is that decoded from the committed pieces, the pending bytes are those of their decoding, and the stacks follow the text |
| `GrammarSampling.Generate` | `entry/src/main/cpp/engine/llama-grammar.cpp:1359-1459` | a whole generation, over any vocabulary and with any sampler: each proposal is committed exactly if the mask lets it through; no exception and no abort as long as no committed piece decodes to NUL; the stacks always follow the text decoded from the committed pieces, and that text is a sentence when the sampler ends the generation |
| `GrammarSampling.GenerateByText` | `entry/src/main/cpp/engine/llama-grammar.cpp:1215-1459` | the same from the grammar text: when the sampler ends the generation, the definitions mean the text of the committed pieces by the root name |
| `GrammarCandidates.JudgeByTop` | `entry/src/main/cpp/engine/llama-grammar.cpp:1074-1109` | whether a candidate matches the top of a stack and moves on, or is rejected there |
| `GrammarCandidates.RejectCandidatesForStack` | `entry/src/main/cpp/engine/llama-grammar.cpp:1061-1130` | the rejects of one stack are exactly the candidates that cannot be read from it |
| `GrammarCandidates.RejectCandidates` | `entry/src/main/cpp/engine/llama-grammar.cpp:944-961` | the rejects are exactly the candidates that no stack can read; the assertion on the stacks holds |
| `GrammarAgreement.KeepsMeansRuns` | `entry/src/main/cpp/engine/llama-grammar.cpp:1061-1130` | for grammars of character classes, a stack keeps a candidate exactly if it runs over its code points to a stack compatible with its pending bytes |
| `GrammarAgreement.MaskAgreesWithAccept` | `entry/src/main/cpp/engine/llama-grammar.cpp:1359-1529` | a candidate is kept exactly if accept_token leaves a stack compatible with the pending bytes |
| `GrammarAgreement.MaskDecidesAccept` | `entry/src/main/cpp/engine/llama-grammar.cpp:1359-1529` | what the mask keeps leaves accept_token a stack; with no pending bytes, what it rejects leaves none |
| `GrammarAgreement.TokenAndStrAgree` | `entry/src/main/cpp/engine/llama-grammar.cpp:1461-1529` | accept_token and accept_str leave the same stacks for a piece with at least one complete code point |
| `GrammarAgreement.TokenDropsEmptyStack` | `entry/src/main/cpp/engine/llama-grammar.cpp:1461-1529` | without a complete code point they differ in exactly the empty stack |
| `GrammarAgreement.OverlongNulDisagrees` | `entry/src/main/cpp/engine/llama-grammar.cpp:1074-1109` | an overlong encoding of NUL is kept by the mask and refused by accept_token |
| `GrammarPending.NulDisagrees` | `entry/src/main/cpp/engine/llama-grammar.cpp:1359-1529` | for every piece with a character that decodes to NUL, and pending bytes that can still become a character or none, some grammar makes the mask keep it and accept_token refuse it |
| `GrammarPending.AgreesIffNoNul` | `entry/src/main/cpp/engine/llama-grammar.cpp:1359-1529` | mask and accept_token agree on a piece for every grammar over characters and every stack if and only if no character of it decodes to NUL or the bytes it leaves pending can become no character |
| `GrammarPending.EndsMidCharacter` | `entry/src/main/cpp/engine/llama-grammar.cpp:1366-1372` | a grammar and a token after which generation may end while a byte of an unfinished character is pending |
| `GrammarAgreement.TokenTerminalDisagrees` | `entry/src/main/cpp/engine/llama-grammar.cpp:1081-1093` | a token terminal reached in the middle of a piece is kept by the mask and refused by accept_token |
| `Utf8.Resume` | `entry/src/main/cpp/engine/llama-grammar.cpp:38-56` | the continuation bytes owed to an earlier piece are taken as the automaton takes them |
| `Utf8.DecodeUtf8` | `entry/src/main/cpp/engine/llama-grammar.cpp:34-92` | the loops compute the code points and the pending state of the byte-by-byte automaton |
| `Utf8Pieces.DecodesPieces` | `entry/src/main/cpp/engine/llama-grammar.cpp:34-92` | decoding any bytes after any pending state gives what reading them character by character gives: the owed bytes, then whole characters, then what is left of the last one; or the mark of an invalid sequence alone |
| `Utf8Pieces.InvalidIffWrongByte` | `entry/src/main/cpp/engine/llama-grammar.cpp:34-92` | nothing but the mark of an invalid sequence comes out if some byte before a NUL is owed and no continuation byte, or is one where a character begins; any other piece leaves a state that may go on |
| `Utf8Pieces.OwedByteMissing` | `entry/src/main/cpp/engine/llama-grammar.cpp:47-53` | while bytes are owed, a piece that begins with a byte other than NUL and the continuation bytes gives nothing but the mark of an invalid sequence |
| `Utf8.CutsDoNotMatter` | `entry/src/main/cpp/engine/llama-grammar.cpp:34-92` | text encoded as section 3 of RFC 3629 says, without NUL and cut anywhere, decodes to its code points with nothing pending |
| `Utf8.NothingPending` | `entry/src/main/cpp/engine/llama-grammar.cpp:34-92` | pieces that begin the encoding of a text, up to any byte, decode to a prefix of the text; nothing is pending if and only if they are the encoding of that prefix |
| `CharClass.MatchChar` | `entry/src/main/cpp/engine/llama-grammar.cpp:765-793` | true exactly if the code point is in the class, and the position after the class |
| `CharClass.MatchPartialChar` | `entry/src/main/cpp/engine/llama-grammar.cpp:795-841` | true exactly if the class meets, or when negated keeps clear of, the interval of completions of the pending bytes |
| `CharClass.IntervalIsExact` | `entry/src/main/cpp/engine/llama-grammar.cpp:808-822` | a code point lies in that interval exactly if decoding its encoding passes through the pending state |
| `CharClass.PositiveExact` | `entry/src/main/cpp/engine/llama-grammar.cpp:795-841` | for a positive class with ordered ranges the answer is yes exactly if some completion is in the class |
| `CharClass.NegatedNeedsAll` | `entry/src/main/cpp/engine/llama-grammar.cpp:795-841` | for a negated class the answer is yes exactly if every completion is in the class |
| `CharClass.NegatedExactIffAlike` | `entry/src/main/cpp/engine/llama-grammar.cpp:795-841` | the exact condition on which the answer for a negated class is the one promised, that some completion is accepted: the class excludes all completions of the pending bytes or none |
| `CharClass.NegatedRejectsTooMuch` | `entry/src/main/cpp/engine/llama-grammar.cpp:795-841` | a negated class and pending bytes that have an allowed completion although the answer is no |
| `BatchLists.BuildLists` | `entry/src/main/cpp/engine/llama-batch.cpp:256-274` | every sequence set has the list of its token indices, in order and complete |
| `Batch.BatchAllocr.constructor` | `entry/src/main/cpp/engine/llama-batch.cpp:234-274` | a fresh allocator: nothing used, the lists built, coupling detected |
| `Batch.BatchAllocr.SplitReset` | `entry/src/main/cpp/engine/llama-batch.cpp:560-567` | no token is used and nothing is emitted |
| `Batch.BatchAllocr.UbatchAdd` | `entry/src/main/cpp/engine/llama-batch.cpp:847-919` | the micro-batch carries the flags of its tokens and the number of its sequences, which divides the number of its tokens, and its flagged tokens are appended to out_ids |
| `Batch.BatchAllocr.SplitSimple` | `entry/src/main/cpp/engine/llama-batch.cpp:569-601` | the run from the first unused token, as long as the limit allows; every token is a sequence of its own, not of equal length; the state stays right exactly if the run meets no used token, as it does in a run of this split |
| `Batch.BatchAllocr.CanJoin` | `entry/src/main/cpp/engine/llama-batch.cpp:620-633` | a token may bring in a set exactly if the set overlaps none of those chosen and, in sequential mode, the first id is the next one |
| `Batch.BatchAllocr.ChooseSets` | `entry/src/main/cpp/engine/llama-batch.cpp:614-645` | reading the unused tokens in order, exactly those that can bring in a set do, until more than n_ubatch sets are chosen or the batch ends |
| `Batch.BatchAllocr.StartIndices` | `entry/src/main/cpp/engine/llama-batch.cpp:653-660` | the position of every chosen set is the number of its tokens used so far |
| `Batch.BatchAllocr.Expand` | `entry/src/main/cpp/engine/llama-batch.cpp:662-696` | every set gives the same number of its next tokens: at least one, and as many as the limit and the shortest set allow |
| `Batch.BatchAllocr.KeepPrefix` | `entry/src/main/cpp/engine/llama-batch.cpp:708-718` | the longest prefix of sets that are used up or keep at least n_keep_tail tokens |
| `Batch.BatchAllocr.ResolveFirst` | `entry/src/main/cpp/engine/llama-batch.cpp:720-751` | the first set is extended to its end if that fits the limit, and otherwise cut back to leave n_keep_tail tokens |
| `Batch.BatchAllocr.Defer` | `entry/src/main/cpp/engine/llama-batch.cpp:753-761` | the other sets give back all they took in this call |
| `Batch.BatchAllocr.SplitEqual` | `entry/src/main/cpp/engine/llama-batch.cpp:603-772` | the micro-batch is cut from the lists of the chosen sets as `EqualSplit` says; nothing for sequential mode with coupled sequences; otherwise at least one token as long as one is left, rollback included |
| `BatchEqual.TakesEmits` | `entry/src/main/cpp/engine/llama-batch.cpp:679-761` | after taking and giving back, exactly the tokens of the slices are used in addition, and none of them was used before |
| `BatchEqual.TakesNoDup` | `entry/src/main/cpp/engine/llama-batch.cpp:764-771` | the concatenated slices hold no token twice |
| `BatchEqual.TakesPrefixed` | `entry/src/main/cpp/engine/llama-batch.cpp:662-761` | the used tokens of every sequence set stay a prefix of its list |
| `BatchEqual.EqualProgress` | `entry/src/main/cpp/engine/llama-batch.cpp:698-762` | the tail rule never leaves an empty micro-batch |
| `BatchRuns.EqualSize` | `entry/src/main/cpp/engine/llama-batch.cpp:640-696` | the micro-batch is rectangular and within the limit, except that it may take one token of each of n_ubatch + 1 sets; without a tail rule this happens exactly if more than n_ubatch sets were chosen |
| `BatchRuns.OneOver` | `entry/src/main/cpp/engine/llama-batch.cpp:640-642` | with a limit of one and two tokens of different sequences the micro-batch has two tokens |
| `BatchRuns.EqualSets` | `entry/src/main/cpp/engine/llama-batch.cpp:603-772` | the sets are pairwise disjoint, the first one is that of the first unused token, every slice is in batch order, and in sequential mode the ids are consecutive |
| `BatchRuns.Greedy` | `entry/src/main/cpp/engine/llama-batch.cpp:614-645` | every unused token that was read overlaps one of the chosen sets |
| `BatchRuns.EqualTails` | `entry/src/main/cpp/engine/llama-batch.cpp:698-762` | each set that takes part has zero or at least n_keep_tail tokens left, and gave the slice that comes next on its list |
| `BatchRuns.TailsStep` | `entry/src/main/cpp/engine/llama-batch.cpp:698-762` | one call keeps, for every set, that its tail is still to come as a whole or lies in one micro-batch |
| `BatchRuns.RunInOrder` | `entry/src/main/cpp/engine/llama-batch.cpp:603-772` | over a whole run of equal splits every micro-batch begins with the smallest token that those before it have left |
| `Batch.BatchAllocr.NextSubset` | `entry/src/main/cpp/engine/llama-batch.cpp:802-804` | the next unused token whose sequence set is within the current one |
| `Batch.BatchAllocr.SplitSeq` | `entry/src/main/cpp/engine/llama-batch.cpp:774-814` | the chain from the first unused token, always on to the next unused token with a set within the current one, up to the limit, as one sequence |
| `Batch.BatchAllocr.ChainPrefixed` | `entry/src/main/cpp/engine/llama-batch.cpp:774-814` | such a chain, too, leaves the used tokens of every set at the head of its list |
| `BatchRuns.RunSimple` | `entry/src/main/cpp/engine/llama-kv-cache-dsa-iswa.cpp:141-150` | repeating the simple split emits the tokens in batch order, each once, in micro-batches within the limit, with every token a sequence of its own |
| `BatchRuns.RunEqual` | `entry/src/main/cpp/engine/llama-kv-cache-dsa-iswa.cpp:182-191` | repeating the equal split emits every token exactly once (nothing in sequential mode with coupled sequences); every micro-batch is an equal split of what those before it have left; and with n_keep_tail the last min(length, n_keep_tail) tokens of every set lie in one micro-batch |
| `BatchRuns.RunSeq` | `entry/src/main/cpp/engine/llama-batch.cpp:774-814` | repeating the sequence split emits every token exactly once, in micro-batches of one sequence each |
| `BatchRuns.InitBatch` | `entry/src/main/cpp/engine/llama-kv-cache-dsa-iswa.cpp:129-220` | the simple split is used if unified and its micro-batches can be prepared, else the equal one; it fails exactly if neither works, and the counters and out_ids describe the micro-batches returned, with no trace of a failed attempt; every micro-batch is rectangular, and those of the simple split are marked as not equal |
| `BatchInit.CheckToken` | `entry/src/main/cpp/engine/llama-batch.cpp:456-476` | a token is refused exactly if its position is below an earlier one of one of its sequences |
| `BatchInit.CheckSequences` | `entry/src/main/cpp/engine/llama-batch.cpp:445-477` | the block accepts a batch exactly if positions never decrease within a sequence; the check for incompatible sequence sets never fires |
| `BatchInit.PartialSubsetPasses` | `entry/src/main/cpp/engine/llama-batch.cpp:428-436` | the batch that the comment gives as invalid is accepted |
| `RowSwaps.ReplayTogether` | `entry/src/main/cpp/engine/llama-context.cpp:2094-2097` | recorded exchanges move rows as they moved the token indices when they were recorded |
| `RowSwaps.ReplayElements` | `entry/src/main/cpp/engine/llama-context.cpp:2094-2097` | exchanges keep the elements |
| `RowSwaps.SwapRows` | `entry/src/main/cpp/engine/llama-context.cpp:2322-2326` | the element-wise loop exchanges two rows of a flat buffer and leaves the other rows |
| `Outputs.Context.Extract` | `entry/src/main/cpp/engine/llama-context.cpp:1940-2040` | the rows of a micro-batch go behind the rows extracted before, per flagged token or per token, and batch_idxs are appended when rows of all tokens are wanted |
| `Outputs.Context.ExtractAll` | `entry/src/main/cpp/engine/llama-context.cpp:1869-2059` | after all micro-batches the rows are those of the emitted tokens, in the order of the split |
| `OutputOrder.FindMin` | `entry/src/main/cpp/engine/llama-context.cpp:2085-2090` | the position of the smallest entry |
| `Outputs.Context.SelectionSort` | `entry/src/main/cpp/engine/llama-context.cpp:2084-2098` | out_ids ends sorted and is the old out_ids with the recorded exchanges applied; their number is the one that FewestExchanges speaks of |
| `OutputOrder.OneSavesOne` | `entry/src/main/cpp/engine/llama-context.cpp:2082-2098` | one exchange saves the selection sort at most one of its own |
| `OutputOrder.FewestExchanges` | `entry/src/main/cpp/engine/llama-context.cpp:2082-2098` | no list of exchanges that sorts out_ids is shorter than the one recorded: the sort does minimize them, as its comment says |
| `Outputs.Context.SetMapping` | `entry/src/main/cpp/engine/llama-context.cpp:2069-2075` | every flagged token is mapped to its row and all others to -1; sorted exactly if out_ids[i] is i throughout |
| `Outputs.Context.MapOutputs` | `entry/src/main/cpp/engine/llama-context.cpp:2061-2106` | the mapping sends the k-th flagged token in batch order to row k, and the exchanges sort the split order |
| `OutputOrder.SortedFlagged` | `entry/src/main/cpp/engine/llama-context.cpp:2061-2106` | whatever the split, the sorted out_ids are the flagged tokens in batch order |
| `Outputs.Context.Decode` | `entry/src/main/cpp/engine/llama-context.cpp:1803-2106` | after decode every flagged row waits for the exchanges and every token row for the permutation, and the mapping is that of the batch |
| `Outputs.Context.ReplaySwaps` | `entry/src/main/cpp/engine/llama-context.cpp:2313-2368` | replaying the recorded exchanges once puts the flagged rows in batch order |
| `OutputOrder.CycleStep` | `entry/src/main/cpp/engine/llama-context.cpp:2373-2389` | exchanging an entry with the one it names keeps a permutation, puts that entry in place for good and leaves fewer misplaced ones |
| `Outputs.Context.FollowCycles` | `entry/src/main/cpp/engine/llama-context.cpp:2370-2391` | the in-place loop ends with the identity and moves the row of every token to its batch index |
| `Outputs.Context.OutputReorder` | `entry/src/main/cpp/engine/llama-context.cpp:2313-2391` | nothing is pending afterwards, and a second call changes nothing that is read |
| `Outputs.Context.OutputResolveRow` | `entry/src/main/cpp/engine/llama-context.cpp:919-946` | the row of a token under the mapping; each error for exactly its condition; the corrupt-buffer error never for a correct mapping |
| `Outputs.Context.GetLogitsIth` | `entry/src/main/cpp/engine/llama-context.cpp:948-968` | the row computed for the token named, and nothing for an index that names none |
| `Outputs.NamedTokens` | `entry/src/main/cpp/engine/llama-context.cpp:919-946` | an index from zero on names a token exactly if it is flagged, and -1 names the last flagged token |
| `Outputs.Context.GetLayerRow` | `entry/src/main/cpp/engine/llama-context.cpp:2370-2391` | row i of the layer inputs is that of token i |
| `Outputs.Context.DecodeAndGet` | `entry/src/main/cpp/engine/llama-context.cpp:948-968` | what is read after decode depends on the batch alone, not on how it was split |
| `StateRestore.CopyTensor` | `entry/src/main/cpp/engine/llama-context.cpp:3083-3091` | a copy between two views overwrites just the target range |
| `StateRestore.CopyRound` | `entry/src/main/cpp/engine/llama-context.cpp:3071-3104` | one round keeps both cursors in their lists and everything before them restored, and steps over at least one chunk |
| `StateRestore.CopyByCursor` | `entry/src/main/cpp/engine/llama-context.cpp:3055-3113` | the loop ends, never leaves either list, and makes the concatenated targets equal the concatenated sources; chunks left over are empty |
| `StateRestore.CopyByIndex` | `entry/src/main/cpp/engine/llama-context.cpp:3043-3047` | every target chunk equals its source chunk |
| `StateRestore.Restore` | `entry/src/main/cpp/engine/llama-context.cpp:3025-3112` | either path restores the bytes; with equal chunking every target chunk equals its source chunk |
| `StateRestore.FlatDetermines` | `entry/src/main/cpp/engine/llama-context.cpp:3032-3048` | chunks of equal sizes with equal concatenations are equal |
| `StateRestore.CursorAgrees` | `entry/src/main/cpp/engine/llama-context.cpp:3042-3104` | where the fast path applies, the cursor loop gives the same result |
| `NpuGraph.RunAgrees` | `entry/src/main/cpp/common/harmony_npu.cpp:292-301` | computing the same nodes from two memories that agree on every value that matters keeps the agreement |
| `NpuGraph.PackageAgrees` | `entry/src/main/cpp/common/harmony_npu.cpp:292-301` | writing only the outputs of a package (flagged, read later, or last) is as good as computing all its nodes |
| `NpuPackage.Describe` | `entry/src/main/cpp/common/harmony_npu.cpp:262-304` | the key lists operators and operands, those from outside numbered in the order of first meeting; inputs and bytes are those of the tensors outside, outputs are exactly the nodes flagged, read later or last; it throws exactly for an operand outside that the host cannot read |
| `NpuPackage.OneDescription` | `entry/src/main/cpp/common/harmony_npu.cpp:262-304` | a package has one description: operands from outside are numbered as they are first met, so key, inputs, outputs and bytes are determined |
| `NpuPackage.KeyDeterminesValues` | `entry/src/main/cpp/common/harmony_npu.cpp:262-304` | a plan found by the key of a package computes from the package's inputs what the CPU computes for its nodes, whichever package it was built for |
| `NpuKeyText.LookupByText` | `entry/src/main/cpp/common/harmony_npu.cpp:262-303` | of any two packages the printed keys are equal if and only if the keys are, so looking plans up by text is looking them up by key |
| `NpuRuntime.Runtime.Configure` | `entry/src/main/cpp/common/harmony_npu.cpp:399-414` | the cache is empty and all counters and times are zero |
| `NpuRuntime.Runtime.Build` | `entry/src/main/cpp/common/harmony_npu.cpp:345-374` | a plan is added within the budget of 128 plans and 256 MiB, or nothing changes |
| `NpuRuntime.Runtime.Reject` | `entry/src/main/cpp/common/harmony_npu.cpp:525-536` | the plan is dropped with its bytes and its key remembered while fewer than 1024 are |
| `NpuRuntime.TotalRemove` | `entry/src/main/cpp/common/harmony_npu.cpp:527-532` | the total of the cache falls by the bytes of the plan removed, so the counter never underflows |
| `NpuRuntime.Runtime.Validate` | `entry/src/main/cpp/common/harmony_npu.cpp:481-516` | the CPU settles the package, which is recorded; the plan becomes validated if and only if the results agree and the NPU took less than 0.8 of the CPU's time, and otherwise the plans stay as they are |
| `NpuRuntime.Runtime.CopyResults` | `entry/src/main/cpp/common/harmony_npu.cpp:518-521` | all required nodes get the results, only nodes of the package are written, and a complete copy is recorded once |
| `NpuRuntime.OneKey` | `entry/src/main/cpp/common/harmony_npu.cpp:262-304` | the key looked up for a package, or that there is none, depends on the package alone, so a package finds the plan that was built for it |
| `NpuRuntime.Runtime.TryPackage` | `entry/src/main/cpp/common/harmony_npu.cpp:466-537` | the key looked up is that of the package; an executed package is recorded once, with the required values copied from the NPU if its plan was validated before and all values computed by the CPU otherwise; the plans, the rejected keys and the counters afterwards are as LeavesMeans says; it stops exactly with the status recorded as an end |
| `NpuRuntime.LeavesMeans` | `entry/src/main/cpp/common/harmony_npu.cpp:475-537` | a rejected package is left alone; any other ends executed with a validated plan, or its plan is dropped and its key rejected; it is executed unless something outside fails or there is no room, and keeps a validated plan if nothing fails; other plans stay |
| `NpuRuntime.TrustedByNpu` | `entry/src/main/cpp/common/harmony_npu.cpp:517-524` | a package whose plan had been validated is recorded as computed by the NPU, unless something outside failed during the try |
| `NpuRuntime.LargeIsTried` | `entry/src/main/cpp/common/harmony_npu.cpp:438-458` | every supported, large matrix product of the graph is in one of the packages planned |
| `NpuRuntime.OneRange` | `entry/src/main/cpp/common/harmony_npu.cpp:441-444` | the range of nodes looked at from a node on is the only one of its kind |
| `NpuRuntime.Interfere` | `entry/src/main/cpp/common/harmony_npu.cpp:399-536` | any sequence of configure calls and package steps of other callers keeps the cache invariants |
| `NpuRuntime.NextRange` | `entry/src/main/cpp/common/harmony_npu.cpp:441-444` | the longest run of supported nodes up to 32, or of unsupported ones; OneRange says that this determines it |
| `NpuRuntime.FitBudget` | `entry/src/main/cpp/common/harmony_npu.cpp:446-454` | the first end, halving the range again and again, whose package can be described and fits the cache, or a single node |
| `NpuRuntime.NextPackage` | `entry/src/main/cpp/common/harmony_npu.cpp:441-456` | the end of the next package, and whether it is tried: exactly if it is supported and still worth it after the cut; then it has at most 32 nodes and fits the cache or is a single node |
| `NpuRuntime.HarmonyNpuCompute` | `entry/src/main/cpp/common/harmony_npu.cpp:422-547` | from the moment it holds the lock first: with the NPU switched on, found and worth it, exactly the planned packages are tried and the ranges recorded are those that they and the CPU computed; otherwise the CPU computes the whole graph; it succeeds exactly if the CPU never failed and the callback never asked for an end; ranges follow one another from the first node on, whatever the outcome, and on success every value that matters is the one the CPU alone computes, whatever other callers did in between |
| `NpuRuntime.TilesCover` | `entry/src/main/cpp/common/harmony_npu.cpp:438-546` | of ranges that follow one another, as those recorded by a run do, exactly one holds each node |
| `NpuRuntime.SettledValues` | `entry/src/main/cpp/common/harmony_npu.cpp:422-547` | every output node has the value that the CPU alone computes, and tensors that are not nodes are unchanged |
| `NpuRuntime.ReadValues` | `entry/src/main/cpp/common/harmony_npu.cpp:292-301` | whatever the next node reads has the value that the CPU alone computes |

## Left out

- How the vocabulary tokenizes the text of a token terminal: a function from texts to ids.
- Token terminals beyond their comparison, `print_rule` and cloning of grammars.
- Which exception is thrown and its text: all failures of the parser are one.
- Lazy grammars, trigger tokens and patterns, and the trigger buffer of `accept_impl`.
- GrammarSampling.Generate: grammars of character classes only, and the run stops at a piece in which a
  character decodes to NUL, because masking and committing differ on both. The choice of the sampler is a
  function from turns to entries.
- 32-bit overflow of symbol ids, indices and counters.
- GrammarInit.Init: if the check is clean, the caller guarantees that the stack expansion ends and finds a
  stack on the rules that the start rule uses, and that the start index is in range. The check does not
  establish the first (`WorksFromIff` says when it holds) and nothing checks the second; without the first
  the original does not end or fails an assertion. A rule counts as used if it is referred to, also where
  no text leads to it.
- GrammarText.InitText: the same guarantees, with the root name defined if it occurs.
- GbnfSpelled.ReadsExactlySpellings: a character of a text stands for one byte, and reading stops at the first NUL, as
  in the C string of the original; a spelled raw character may be any bytes of the length that its first byte announces,
  because the reader does not check the others.
- GbnfMarks.MarkMeans: numbers in braces count as far as they are in effect (`UpperIsAsWritten`).
- How often the abort callback is asked.
- Batch.BatchAllocr.SplitEqual: each token has at least one sequence id, because `init` reads the first
  id of every token without a check.
- The content types of a batch, positions relative to the memory module and M-RoPE positions in `init`;
  the unique ids and sequence indices that `ubatch_add` records beside the token indices.
- BatchRuns.InitBatch: whether the three caches can prepare the micro-batches of an attempt is one flag
  per attempt, because their code is not part of this model.
- Outputs.Context.Extract: of the buffers with one row per flagged token the logits and the masked
  embeddings are modelled, and of those with one row per token the embeddings and one layer; the others
  are treated alike. Pooled embeddings are not modelled.
- A decode that is aborted between micro-batches, and the growth of output buffers.
- StateRestore.Restore: chunk sizes are whole numbers of elements of one size, because every chunk is a
  view of whole elements and the total is compared first; target tensors do not overlap.
- Writing the state, and buffers of several types side by side: one buffer is modelled.
- NpuRuntime.Runtime.Validate: the element-wise comparison and the times measured are answers of the
  world; times are real numbers, and those that are not finite are not modelled.
- The calls that build a model for the NPU, its tensor descriptions, and the printed status; a failing
  call is an answer of the world.
- NpuKeyText.LookupByText: how an address is printed is left open; two addresses are printed differently
  and without a semicolon. Numbers are not limited to the width of their types.
