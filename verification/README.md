# GSL/4 in Dafny

GSL/4 is the template language that generates the code of this repository.  Its interpreter, in
`tooling/gsl4`, parses scripts line by line, keeps the parsed lines in a cache, evaluates them and
lays out what they produce.  This project models the parts of the interpreter whose correctness
cannot be seen from any one function, and proves what they are for:

- **The expression parser** (`ggpars.c`) builds a tree through a moving cursor.  `ExpressionCursor`
  is that cursor as a value, `RoundTrip` proves that every expression printed with only the brackets
  it needs is parsed back to itself, `Precedence` that operators group by their classes, `BracketBalance`
  counts the brackets, and `ExpressionHeap` has
  the parser's own form: nodes with parent pointers that are changed in place, shown to do what the
  cursor does, with every width and space conserved.
- **The script loader and cache** (`ggscrp.c`).  `ScriptBlocks` has the control stack and the filling
  in of block ends, against an independent definition of proper nesting, `LoopLinks` says which loop a
  line belongs to; `ScriptCollect` and
  `ScriptExact` say which lines survive when a script is freed while some of its blocks are still
  referred to, and exactly when these are the right ones; `ScriptReferences`
  says which references to lines this respects; `ScriptCache` has the loops that do it and the size-bounded
  cache; `ScriptLoading` puts loader, references and cache together.
- **Result layout** (`ggcomm.c`): the walk over the operands of a concatenation by parent pointers
  (`OperandWalk`), the two passes that lay them out with column shuffling (`ConcatLayout`), both together
  (`ConcatTree`), block values (`BlockValues`), left-stripping (`LeftStrip`) and numbers as texts (`NumberText`).
- **The evaluator** (`ggcode.c`): constants cached in the parse tree (`ConstantCache`), what the
  operators compute (`OperatorLaws`), the template
  lexer and the escapes in text (`TemplateText`), and the in-situ sort of a scope (`SortInPlace`).
- **Symbol tables that refer to each other in cycles** (`ggsymb.c`): `TrialDeletion`.
- **Nested scopes** (`ggscop.c`): `ScopeStack`.
- **Messages between threads** (`ggthrd.c`): `Mailbox`.

Linked structures are modelled in place as classes over an arena (`ExpressionHeap`, `TrialDeletion`),
lists and buffers as sequences, maps and arrays.  The order in which the parser's and the loader's
steps follow one another is that of the dialogs in `ggpars.l`, `ggscrp.l` and `ggcode.l`.

## What was found

Some statements one would expect of the code are false of it.  Each has a concrete input, and the exact
condition under which the code is right is proved.

- An unclosed bracket around a whole expression is accepted, because the return to the root does not
  look at the root's own brackets (`UnclosedExpressionIsAccepted`, `ReturnToRootSucceedsIff`); inside a
  command the check is exact (`CommandReturnChecksBalance`).
- Freeing a script can free the `.else` line of a block that is referred to
  (`LinkedElseIsFreed`), or its end line (`LinkedEndIsFreed`).  `SweepIsExactIff` gives the condition,
  which scripts that are referred to only through macros and functions always meet
  (`MacroLinksStartFresh`).
- A reference to a line outside all blocks does not keep the line (`PlainReferenceIsLost`);
  `ReferenceSurvivesIff` says which references do.
- A symbol table of a cycle is deleted although another table of the cycle is held from outside
  (`CycleMemberIsDeleted`), and a table that only garbage refers to is kept (`GarbageIsKept`);
  `DecisionIsRightIff` says exactly when either happens, and `Destroy` that neither does without cycles.
- Blanks behind a line extension are in no token (`BlankIsLost`); `Tokenize` says which lines lose some.
- A computed number stored over a name that held an item is lost, because its text has not been
  computed yet (`ComputedNumberIsLost`, `StoreThenLookup`).
- The cache means to free the script closed longest ago, but no script is given a time of closing: it
  frees the one read last (`Oldest`).

## Model

| member | source | states |
|---|---|---|
| `RoundTrip.PrintedExpressionIsRebuilt` | tooling/gsl4/ggpars.c:1558-1640 | for every expression over the unary and binary operators, printed with only the brackets the priority table requires, the tokens are accepted and leave exactly that expression in the slot they started in |
| `RoundTrip.PrintIsInjective` | tooling/gsl4/ggpars.c:133-141 | two expressions with the same minimal printed form are equal, so priorities and left-to-right grouping leave no ambiguity |
| `RoundTrip.PrintedArgumentsAreRebuilt` | tooling/gsl4/ggpars.c:1997-2038 | printed argument lists come back as the left-nested list of their expressions after the returns to expression and arguments |
| `RoundTrip.ClimbOut` | tooling/gsl4/ggpars.c:1624-1640 | from behind a printed expression every climb of the given rule first leaves the expression, whole, in its slot |
| `RoundTrip.LeftRuns` | tooling/gsl4/ggpars.c:2222-2231 | a left operand with its brackets, and the operator behind it, leave the cursor in the slot of the right operand |
| `Precedence.RunIsGrouped` | tooling/gsl4/ggpars.c:1558-1640 | any tokens without brackets are accepted, and whatever return follows, in the tree they leave no operator has a looser one below it and none has one of its own class on its right, the classes being listed by name |
| `Precedence.FeedIsGrouped` | tooling/gsl4/ggpars.c:1558-1640 | one token keeps the tree and the spine above the cursor grouped by these classes |
| `Precedence.ClimbFitsLeft` | tooling/gsl4/ggpars.c:1624-1640 | the climb for an operator stops where what it takes as its left operand is not looser, and where it may stand itself |
| `Precedence.PairIsGrouped` | tooling/gsl4/ggpars.c:1558-1640 | for every two operators, `a op1 b op2 c` is `a op1 (b op2 c)` if the second is of a tighter class and `(a op1 b) op2 c` otherwise |
| `Precedence.TableIsClasses` | tooling/gsl4/ggpars.c:133-141 | the priority table orders the operators as the classes listed from loosest to tightest do |
| `ExpressionCursor.RunAppend` | tooling/gsl4/ggpars.c:2222-2262 | feeding tokens in two parts is feeding them at once, up to the first fault |
| `BracketBalance.RunKeepsBrackets` | tooling/gsl4/ggpars.c:2159-2164 | after any accepted tokens the brackets on the spine and the pending ones together are the opened less the closed ones |
| `BracketBalance.FeedKeepsBrackets` | tooling/gsl4/ggpars.c:2236-2262 | one token changes the number of open brackets by exactly what it opens or closes |
| `BracketBalance.UnmatchedClose` | tooling/gsl4/ggpars.c:2236-2262 | a closing bracket with none open is reported as belonging to somebody else, and one right behind an opening bracket as an error |
| `BracketBalance.SpecifierIsBuilt` | tooling/gsl4/ggpars.c:2120-2146 | a name behind a dot takes what is in the slot as its scope, and the slot keeps its brackets |
| `BracketBalance.ReturnToRootSucceedsIff` | tooling/gsl4/ggpars.c:1946-1958 | the return to the root succeeds if and only if no bracket is pending and no node below the root holds one |
| `BracketBalance.CommandReturnChecksBalance` | tooling/gsl4/ggpars.c:1946-1958 | started inside a command with no bracket open, and whatever tokens have been accepted since, the return succeeds if and only if they closed every bracket they opened |
| `BracketBalance.RunStaysUnder` | tooling/gsl4/ggpars.c:1624-1640 | no sequence of tokens, accepted or not, makes the parser climb out of the command it is in |
| `BracketBalance.UnclosedExpressionIsAccepted` | tooling/gsl4/ggpars.c:1946-1958 | a bare expression with one unclosed bracket around all of it is accepted |
| `BracketBalance.PiecesConcatenate` | tooling/gsl4/ggpars.c:1526-1547 | the pieces of a template line form the left-nested concatenation in their order |
| `ExpressionHeap.Builder.ReturnOneLevel` | tooling/gsl4/ggpars.c:1643-1713 | on linked nodes the climb does what the cursor's climb does, finds the child's field in its parent (so the branch for a parent that lost its child is never taken), and keeps the sum of the widths and spaces on the spine, in the slot and deferred, which is all that has been counted |
| `ExpressionHeap.Builder.Climb` | tooling/gsl4/ggpars.c:1624-1640 | the climbing loops end and equal the cursor's climb, faults included |
| `ExpressionHeap.Builder.InsertOperator` | tooling/gsl4/ggpars.c:2210-2231 | inserting a unary or binary operator in the linked nodes equals the cursor's step and keeps the sum of widths and spaces on the spine, in the slot and deferred |
| `ExpressionHeap.Builder.InsertSimple` | tooling/gsl4/ggpars.c:1526-1547 | inserting an operand equals the cursor's step, a filled slot becoming the left side of a concatenation, and the sum of widths and spaces on the spine, in the slot and deferred stays |
| `ExpressionHeap.Builder.PutAbove` | tooling/gsl4/ggpars.c:1558-1616 | a node put where the slot's content was takes the content as its child, with both parent pointers right, and no width or space is lost |
| `ExpressionHeap.Builder.InsertDataSpecifier` | tooling/gsl4/ggpars.c:2120-2146 | the slot's content becomes the scope of the new node as in the cursor's step |
| `ExpressionHeap.Builder.ReadyFor` | tooling/gsl4/ggpars.c:1784-1795 | stepping down into an empty field moves the cursor there and an occupied field is refused |
| `ExpressionHeap.Builder.CloseBracket` | tooling/gsl4/ggpars.c:2236-2262 | closing a bracket climbs to the nearest bracket and takes one away, or reports that there is none |
| `ExpressionHeap.Builder.CountToken` | tooling/gsl4/ggpars.c:2081-2098 | a token's width and spaces are added to the node in the slot or deferred: the total grows by exactly them |
| `ExpressionHeap.Builder.InsertSpacesOnly` | tooling/gsl4/ggpars.c:1930-1941 | spaces at the end of a line are counted on a node of their own when there are any or the slot is empty |
| `ExpressionHeap.Builder.Feed` | tooling/gsl4/ggpars.c:2103-2262 | every token of an expression, on the linked nodes, does what the cursor does with it |
| `ExpressionHeap.Builder.FeedAll` | tooling/gsl4/ggpars.c:1526-1713 | after any sequence of tokens the linked nodes form the tree of the cursor's run, or the same fault is reported |
| `ExpressionHeap.Builder.ParsePrinted` | tooling/gsl4/ggpars.c:1946-2038 | an empty builder fed the printed form of an expression and returned to the root holds exactly that expression in linked nodes |
| `ExpressionHeap.FieldIsHole` | tooling/gsl4/ggpars.c:1643-1713 | the search for the field that holds the node being left finds the one the cursor came down through |
| `ScriptBlocks.Fill` | tooling/gsl4/ggscrp.c:1111-1148 | the jump-over fill ends and gives exactly the lines of the segment that had no block end the new one |
| `ScriptBlocks.FillClosesSegment` | tooling/gsl4/ggscrp.c:1111-1148 | after the fill every line's block end is that of the innermost closed segment that contains it |
| `ScriptBlocks.JumpSkipsFilled` | tooling/gsl4/ggscrp.c:1127-1142 | whatever the fill jumps over already has a block end |
| `ScriptBlocks.CloseKeepsNesting` | tooling/gsl4/ggscrp.c:1111-1148 | closing the innermost control keeps the segments properly nested among themselves and around the open controls |
| `ScriptBlocks.OpenKeepsNesting` | tooling/gsl4/ggscrp.c:1058-1067 | opening a control behind all closed segments keeps the nesting |
| `ScriptBlocks.ClosedIsReference` | tooling/gsl4/ggscrp.c:1103-1148 | on lines that nest, the control stack and the segments it closes are those of the reference nesting |
| `ScriptBlocks.StartsAreClosed` | tooling/gsl4/ggscrp.c:1050-1148 | every line that starts a block or a branch is the start of an open block or of a closed segment |
| `ScriptBlocks.ForsAreClosed` | tooling/gsl4/ggscrp.c:1040-1045 | every `.for` line is still open or has its own `.endfor` |
| `ScriptBlocks.EndIsInLoop` | tooling/gsl4/ggscrp.c:1227-1232 | the loop an `.endfor` is in is the one it ends |
| `ScriptBlocks.BranchStep` | tooling/gsl4/ggscrp.c:1103-1210 | an `.else` or `.elsif` closes the innermost branch and opens another, and is accepted if and only if the nesting allows it |
| `ScriptBlocks.ElseOwner` | tooling/gsl4/ggscrp.c:1152-1192 | the comparison of the loop's block end with the popped `.else` decides rightly whether that `.else` belongs to the `.for` or to an `.if` |
| `ScriptBlocks.EndDecision` | tooling/gsl4/ggscrp.c:1103-1192 | on a properly nested beginning the loader accepts an end line if and only if the innermost open block is of its type |
| `ScriptBlocks.LoopIsLeft` | tooling/gsl4/ggscrp.c:1227-1232 | leaving a loop always finds a loop to leave, even after unmatched lines |
| `ScriptBlocks.Loader.Append` | tooling/gsl4/ggscrp.c:922-959 | a new line has no block end and remembers the loop it is in; all other lines stay |
| `ScriptBlocks.Loader.Pop` | tooling/gsl4/ggscrp.c:1111-1148 | popping closes the innermost segment if its control is of one of the given types and only drops the control otherwise |
| `ScriptBlocks.Loader.AddLine` | tooling/gsl4/ggscrp.c:922-1232 | every line, matched or not, adds exactly the segment from the popped control's line to itself, or none, and keeps block ends innermost, segments nested and loops chained; it is accepted if and only if it continues proper nesting; stack, segments and loop ends stay those that the lines determine |
| `ScriptBlocks.Loader.Load` | tooling/gsl4/ggscrp.c:997-1006 | after any lines, every line's block end is that of the innermost segment the lines determine, every line behind lines that nest remembers the loop it is in, and an `.endfor` its own `.for`; a script is accepted if and only if its lines nest properly and nothing is left open, and then the segments are those of the nesting, every line that starts a block or branch starts one of them, and every `.for` has its own `.endfor` |
| `ScriptBlocks.Loader.SkipLoop` | tooling/gsl4/ggcode.c:2447-2464 | following block ends from a `.for` line to the first `.endfor` ends at the `.endfor` that closes this loop in the reference nesting |
| `LoopLinks.InsideBlock` | tooling/gsl4/ggscrp.c:1040-1045 | the lines directly inside a closed `.for`, `.while`, `.macro` or `.function` block, and its end line, remember its opening line; inside `.if`, `.scope`, `.new` and `.template` they remember what the opening line remembers |
| `LoopLinks.BehindBlock` | tooling/gsl4/ggscrp.c:1227-1232 | the end line belongs to the block, and the line behind it remembers what the opening line does |
| `LoopLinks.OutsideBlocks` | tooling/gsl4/ggscrp.c:922-959 | the first line remembers no loop, and behind a plain line nothing changes |
| `LoopLinks.BlockHasEnd` | tooling/gsl4/ggscrp.c:997-1006 | in an accepted script every opened block has such an end |
| `ScriptCollect.KeptIsCovered` | tooling/gsl4/ggscrp.c:322-359 | whatever the links, nothing outside the linked blocks is kept |
| `ScriptCollect.LinkedElseIsFreed` | tooling/gsl4/ggscrp.c:346-356 | a script in which the block referred to through a line of its `.else` branch loses the `.else` line |
| `ScriptCollect.LinkedEndIsFreed` | tooling/gsl4/ggscrp.c:333-343 | a script with three references of which a linked end line is freed while kept lines point to it |
| `ScriptCollect.LoadedIsWellNested` | tooling/gsl4/ggscrp.c:1111-1148 | the block ends the loader fills in are properly nested, without gaps, in the sense the freeing needs |
| `ScriptCollect.MacroLinksStartFresh` | tooling/gsl4/ggscrp.c:1391-1415 | when only the end lines of macros and functions are linked, every loaded script meets the condition for freeing |
| `ScriptCollect.OpenerLinkTarget` | tooling/gsl4/ggscrp.c:1391-1415 | referring to the opening line of a block links the end of that block |
| `ScriptExact.KeptIffChosen` | tooling/gsl4/ggscrp.c:322-359 | the survivors for every properly nested script and all links: the lines of the linked blocks that open where the sweep stops, which is told from block ends and links alone |
| `ScriptExact.ChosenIffSound` | tooling/gsl4/ggscrp.c:322-359 | all lines of linked blocks are among these if and only if every linked block whose first line is passed by, and that no kept block encloses, can do without that line |
| `ScriptExact.SweepIsExactIff` | tooling/gsl4/ggscrp.c:322-377 | for every properly nested script and all links: the survivors are exactly the lines in linked blocks if and only if that condition holds, and then no block end dangles |
| `ScriptExact.DanglesIff` | tooling/gsl4/ggscrp.c:322-377 | a line is left whose block end is gone if and only if some linked block is severed: its first line is kept as the end of another, no stop has its end as block end, and that end opens no linked block |
| `ScriptExact.UnclearedEnd` | tooling/gsl4/ggscrp.c:333-343 | a survivor whose block end was not cleared has it kept or linked |
| `ScriptExact.SweptIsSound` | tooling/gsl4/ggscrp.c:322-377 | a script that meets the condition still does when it has been freed, nests properly, and freeing it again frees nothing |
| `ScriptExact.FreshIsSound` | tooling/gsl4/ggscrp.c:322-359 | where no linked block starts on a line that ends another, no linked block is exposed to the sweep at all |
| `ScriptExact.SweepKeepsLinkedBlocks` | tooling/gsl4/ggscrp.c:322-377 | then exactly the lines of the linked blocks survive, no block end dangles, and what is left starts afresh again |
| `ScriptReferences.ReferenceSurvivesIff` | tooling/gsl4/ggscrp.c:322-359 | freeing a sound script keeps a line that is referred to if and only if the line has a block end or ends a block |
| `ScriptReferences.PlainReferenceIsLost` | tooling/gsl4/ggscrp.c:1391-1415 | a plain line that is referred to and is freed all the same |
| `ScriptReferences.TargetIsStable` | tooling/gsl4/ggscrp.c:1417-1447 | for such a line, giving the reference up after lines have been freed finds the line on which it was counted |
| `ScriptReferences.LinkCounts` | tooling/gsl4/ggscrp.c:1391-1415 | a new reference makes the counts those of one reference more |
| `ScriptReferences.UnlinkCounts` | tooling/gsl4/ggscrp.c:1417-1447 | every reference that is counted can be given up, and the counts are then those of the others |
| `ScriptReferences.SweepCounts` | tooling/gsl4/ggscrp.c:322-377 | freeing leaves the counts those of the same references |
| `ScriptReferences.SweptIsGapless` | tooling/gsl4/ggscrp.c:322-377 | freeing leaves every line inside a block with a block end or as the end of a block |
| `ScriptCache.Sweep` | tooling/gsl4/ggscrp.c:322-377 | the loop over the lines ends, frees every line that is not kept once, clears the block ends that would dangle, and reports exactly the space freed |
| `ScriptCache.EligibleShrinks` | tooling/gsl4/ggscrp.c:569-592 | freeing a script whose last line is not linked frees at least that line |
| `ScriptCache.EligibleIff` | tooling/gsl4/ggscrp.c:575-585 | a script may be freed to make room if and only if it has no user and no reader and its last line in memory is not linked |
| `ScriptCache.FreedIsNotEligible` | tooling/gsl4/ggscrp.c:569-592 | what is left of a freed script ends with a linked line, so that it is not freed again to make room |
| `ScriptCache.LinkedBlocksSurvive` | tooling/gsl4/ggscrp.c:569-592 | through any number of evictions every line of a linked block of a sound script stays in memory, in the same script, which stays sound |
| `ScriptCache.ReferencesSurvive` | tooling/gsl4/ggscrp.c:569-592 | through any number of evictions the references to a sound script, each to a line with a block end or ending a block, find their script with the counts of exactly these references |
| `ScriptCache.EvolvesOrderly` | tooling/gsl4/ggscrp.c:569-592 | eviction keeps every script properly nested with its linked blocks starting afresh |
| `ScriptCache.FillEnds` | tooling/gsl4/ggscrp.c:1135-1146 | the jump-over fill on the lines in memory gives exactly the lines without a block end, from the opening line on, the new one |
| `ScriptCache.FilledIsNested` | tooling/gsl4/ggscrp.c:1135-1146 | filling in the block ends of a whole script keeps it properly nested and without gaps |
| `ScriptCache.LoaderFills` | tooling/gsl4/ggscrp.c:1111-1148 | the loader's fill and the fill on the lines in memory are the same |
| `ScriptCache.LinkKeepsFresh` | tooling/gsl4/ggscrp.c:1391-1415 | a new reference keeps linked blocks starting afresh if the block referred to does |
| `ScriptCache.Cache.NewHandle` | tooling/gsl4/ggscrp.c:410-432 | a new script is empty, in use, properly nested, and changes no other and no total |
| `ScriptCache.Cache.SaveLine` | tooling/gsl4/ggscrp.c:922-959 | the script's and the cache's sizes grow by the line's size |
| `ScriptCache.LineAdded` | tooling/gsl4/ggscrp.c:922-959 | a new line keeps the accounts, the nesting and the fresh starts of a script |
| `ScriptCache.Cache.CloseBlock` | tooling/gsl4/ggscrp.c:1111-1148 | closing a block fills in the block ends of its lines and keeps the script properly nested and the cache in order; sizes do not change |
| `ScriptCache.Cache.LinkLine` | tooling/gsl4/ggscrp.c:1391-1415 | a reference counts on the end of the line's block, or on the line itself if that ends a block: the counts are those of one reference more; the cache stays in order if that block starts afresh |
| `ScriptCache.Cache.UnlinkLine` | tooling/gsl4/ggscrp.c:1417-1477 | a reference that is counted is given up where it was counted, and the counts are then those of the other references; the cache stays in order; as lines belong to a script none is freed |
| `ScriptCache.Cache.OpenHandle` | tooling/gsl4/ggscrp.c:550-554 | one more user, all else as it was |
| `ScriptCache.Cache.FinishReading` | tooling/gsl4/ggscrp.c:886-917 | a reader becomes a user; then the total is within the limit or no script is eligible, and scripts are evicted only as eviction may |
| `ScriptCache.Cache.CloseHandle` | tooling/gsl4/ggscrp.c:556-567 | a script that need not be kept is freed when its last user closes it; then the total is within the limit or no script is eligible |
| `ScriptCache.Cache.ReallyDestroy` | tooling/gsl4/ggscrp.c:301-319 | one script is swept, and removed if nothing is left; sizes and totals stay the sums over the live lines, whatever is linked |
| `ScriptCache.Cache.Oldest` | tooling/gsl4/ggscrp.c:575-585 | as no script is ever given a time of closing, the search finds the first eligible script of the list, the one read last, and none only if none is eligible |
| `ScriptCache.Cache.FreeExcess` | tooling/gsl4/ggscrp.c:569-592 | ends; succeeds only with the total within the limit, fails only when no script is eligible; every script is as it was or was eligible and has been swept; scripts that were not eligible are unchanged, and every line of a linked block of a sound script is still in its script |
| `ScriptLoading.LoadScript` | tooling/gsl4/ggscrp.c:922-1148 | reading a script through the loader into the cache leaves it in memory with the block ends its lines determine, properly nested, without gaps and with nothing linked; it is accepted if and only if it nests; the cache stays in order |
| `ScriptLoading.StepEnds` | tooling/gsl4/ggscrp.c:1111-1148 | a line is appended without a block end and, if it closes a segment, becomes the block end of exactly the lines of the segment that have none |
| `ScriptLoading.MacroHasEnd` | tooling/gsl4/ggscrp.c:1111-1148 | in an accepted script the block of a macro or function ends with its own end line |
| `ScriptLoading.MacroIsFresh` | tooling/gsl4/ggscrp.c:1391-1415 | a reference to a macro links a block that starts afresh |
| `ScriptLoading.DefineMacro` | tooling/gsl4/ggscrp.c:636-652 | registering a macro or function of an accepted script counts one reference on its end line and keeps the cache in order |
| `OperandWalk.FirstOperand` | tooling/gsl4/ggcomm.c:1352-1364 | finds the leftmost leaf and takes over the indentation of the whole part |
| `OperandWalk.NextOperand` | tooling/gsl4/ggcomm.c:1368-1391 | without a stack, from any leaf of a concatenation finds the leaf that follows in the tree, or that there is none |
| `OperandWalk.Visit` | tooling/gsl4/ggcomm.c:1221-1296 | the two together visit all leaves from left to right, each with the indentation of the largest part it starts |
| `OperandWalk.AfterFollowsOrder` | tooling/gsl4/ggcomm.c:1368-1391 | the successor of the k-th leaf is the next one and the last has none |
| `OperandWalk.OperandsAreDistinct` | tooling/gsl4/ggcomm.c:1352-1391 | no leaf occurs twice in the walk |
| `ConcatLayout.DriftIsColumnDifference` | tooling/gsl4/ggcomm.c:1217-1297 | while no operand breaks the line or extends it, the shuffle counter is the output column less the script column |
| `ConcatLayout.ShuffleRealigns` | tooling/gsl4/ggcomm.c:1229-1237 | on a line without breaks an operand whose gap is at least the shuffle value starts at the larger of its script column and the output column plus the shuffle value; with a smaller gap it keeps the gap |
| `ConcatLayout.ShuffleRestarts` | tooling/gsl4/ggcomm.c:1238-1297 | behind a text with a newline columns are counted anew from there, on both sides, and the same holds |
| `ConcatLayout.ShuffleExtends` | tooling/gsl4/ggcomm.c:1238-1297 | behind an operand that extends the line the script column starts again at zero, and the output column is the width of the output line so far |
| `ConcatLayout.LineWidth` | tooling/gsl4/ggcomm.c:1238-1297 | the running width is the length of what is on the output line: what follows the last newline and the columns since |
| `ConcatLayout.RowHolds` | tooling/gsl4/ggcomm.c:1303-1340 | every row has, in the columns of an operand, its blanks, then its text or its line of the block, then blanks |
| `ConcatLayout.HeightReached` | tooling/gsl4/ggcomm.c:1217-1297 | the rectangle is as high as its highest operand |
| `ConcatLayout.RowLength` | tooling/gsl4/ggcomm.c:1303-1348 | every row is as long as the first pass measured |
| `ConcatLayout.Measure` | tooling/gsl4/ggcomm.c:1217-1297 | the first pass computes indentations, number of lines and line length, and stops at an undefined operand; a newline in a text, also in the computed text of a block, makes the counting of columns start again |
| `ConcatLayout.WriteOperand` | tooling/gsl4/ggcomm.c:1303-1340 | one operand is written on every row behind what is there, padded with blanks, inside the rectangle |
| `ConcatLayout.Concatenate` | tooling/gsl4/ggcomm.c:1191-1348 | on the operands in order: fails exactly on an undefined operand; otherwise every row of the rectangle is the operands' rows side by side, and the second pass is as wide as the first measured |
| `ConcatTree.ConcatenateResults` | tooling/gsl4/ggcomm.c:1191-1391 | from the linked result tree: the operands found by parent pointers, each with the indentation of the largest part it starts, are laid out side by side on every row; fails exactly on an undefined operand |
| `ConcatTree.VisitedOperands` | tooling/gsl4/ggcomm.c:1352-1391 | the operands visited are those of the tree from left to right |
| `ConcatTree.FirstIndent` | tooling/gsl4/ggcomm.c:1221-1225 | only the first operand takes over the indentation of the whole |
| `BlockValues.ConstructBlock` | tooling/gsl4/ggcomm.c:807-866 | the two passes split any text at its newlines and fill the measured memory exactly with the pointers and the lines |
| `BlockValues.MeasureBlock` | tooling/gsl4/ggcomm.c:820-836 | the first pass finds the number of lines and the size they need |
| `BlockValues.ReadLine` | tooling/gsl4/ggcomm.c:485-511 | reading a block through its i-th pointer gives the i-th line |
| `BlockValues.CopyBlock` | tooling/gsl4/ggcomm.c:218-243 | the copy's pointers, rebuilt by walking over its texts, point to the same lines at the new address |
| `BlockValues.StringValue` | tooling/gsl4/ggcomm.c:485-511 | the text of a block is its lines padded to the longest, in exactly the measured size |
| `BlockValues.PaddedMeans` | tooling/gsl4/ggcomm.c:485-511 | the padded lines are the lines followed by blanks, all as long as the longest, which stays as it is |
| `BlockValues.BlockTextSplits` | tooling/gsl4/ggcomm.c:485-511 | splitting that text gives the padded lines, and doing both again changes nothing |
| `TextLines.LinesOf` | tooling/gsl4/ggcomm.c:820-836 | the lines of a text joined by newlines are the text |
| `TextLines.LinesOfJoin` | tooling/gsl4/ggcomm.c:820-836 | lines without newlines, joined and split, come back |
| `LeftStrip.StripLeft` | tooling/gsl4/ggcomm.c:1074-1171 | the second pass writes the stripped text and fills exactly the size the first pass computed |
| `LeftStrip.MeasureLeft` | tooling/gsl4/ggcomm.c:1090-1133 | the first pass finds the margin and the size of the result |
| `LeftStrip.LeftLines` | tooling/gsl4/ggcomm.c:1074-1171 | every line that is not blank loses the same margin, some line then starts at the first column, blank lines become empty |
| `LeftStrip.LeftTwice` | tooling/gsl4/ggcomm.c:1074-1171 | left-stripping is idempotent |
| `NumberText.PrintedScans` | tooling/gsl4/ggcomm.c:532-590 | scanning a number printed with nine decimals and stripped of zeros and bare point gives it back, for every sign and number of billionths |
| `NumberText.NumberRoundTrip` | tooling/gsl4/ggcomm.c:472-483 | every number turned into text comes back as a number, within half a billionth, and exactly if it is a multiple of a billionth |
| `NumberText.SpellingScans` | tooling/gsl4/ggcomm.c:532-590 | an optional sign, digits, and optionally a point and digits, is the number the digits spell |
| `NumberText.NumberIsSpelling` | tooling/gsl4/ggcomm.c:532-590 | every text that is taken for a number is of this form |
| `NumberText.DigitsCount` | tooling/gsl4/ggcomm.c:565-581 | a digit before the point multiplies by ten and adds itself, one behind it adds its tenths |
| `ConstantCache.ConstantIsFixed` | tooling/gsl4/ggcode.c:3585-3694 | a result marked constant is defined, is no item, and is what the tree evaluates to in every environment |
| `ConstantCache.FinishIsFixed` | tooling/gsl4/ggcode.c:3894-4097 | on constant operands the operators do not depend on the environment |
| `ConstantCache.ScriptNode.Evaluate` | tooling/gsl4/ggcode.c:4820-4846 | evaluating a tree with caches from earlier evaluations, in any environment, gives what the fresh tree gives there, and leaves caches that are right in all environments; a constant result is cached, and the second operand is left alone if the first decides |
| `ConstantCache.ConstantStands` | tooling/gsl4/ggcode.c:5094-5114 | a cached constant may stand for its node in all environments |
| `ConstantCache.LiteralIsConstant` | tooling/gsl4/ggcode.c:3894-3907 | an expression of texts, numbers and arithmetic alone has a constant result |
| `OperatorLaws.PlusAdds` | tooling/gsl4/ggcode.c:3894-4097 | `+` adds numbers, and texts of unknown type that spell numbers |
| `OperatorLaws.PlusJoins` | tooling/gsl4/ggcode.c:3894-4097 | `+` on all other defined operands joins their texts |
| `OperatorLaws.MinusUndoesPlus` | tooling/gsl4/ggcode.c:3894-4097 | adding what `-` took away gives the first operand back |
| `OperatorLaws.DivideUndoesTimes` | tooling/gsl4/ggcode.c:3894-4097 | multiplying a quotient by the divisor gives the first operand back, and on numbers division by zero is the one error |
| `OperatorLaws.TimesMultiplies` | tooling/gsl4/ggcode.c:3894-4097 | `*` multiplies numbers |
| `OperatorLaws.TimesRepeats` | tooling/gsl4/ggcode.c:3894-4097 | a string times a number is the string over and over, as often as the whole part of the number says; a negative number of times is an error |
| `OperatorLaws.SignLaws` | tooling/gsl4/ggcode.c:3894-4097 | a prefixed sign, and `!`, which is true of what is cut off to zero |
| `OperatorLaws.BadOperands` | tooling/gsl4/ggcode.c:3894-4097 | an undefined operand makes arithmetic undefined, and one that spells no number is an error where a number is wanted |
| `OperatorLaws.NumbersCompare` | tooling/gsl4/ggcode.c:4585-4768 | the twelve comparisons, by name, on numbers are those of numbers |
| `OperatorLaws.TextsCompare` | tooling/gsl4/ggcode.c:4585-4768 | on all other defined values but items they go by the first character that differs, a beginning coming first |
| `OperatorLaws.ExactlyOne` | tooling/gsl4/ggcode.c:4585-4768 | of `<`, `=` and `>` exactly one holds |
| `OperatorLaws.ItemsCompare` | tooling/gsl4/ggcode.c:4585-4768 | items are equal if they are the same and have no order; an item and another value are an error |
| `OperatorLaws.UndefinedCompare` | tooling/gsl4/ggcode.c:4585-4768 | with an undefined operand a comparison is undefined; a safe one is false, unless both are and it asks for equality |
| `OperatorLaws.FirstDecides` | tooling/gsl4/ggcode.c:4775-4815 | a true first operand decides `|`, a false one `&` and the choice, a defined one the default, whatever the second is |
| `OperatorLaws.SecondDecides` | tooling/gsl4/ggcode.c:3894-4097 | otherwise `|` and `&` are true of numbers that are not cut off to zero |
| `OperatorLaws.SecondTaken` | tooling/gsl4/ggcode.c:4555-4580 | otherwise a choice and a default give the second operand |
| `OperatorLaws.SecondIsLeftOut` | tooling/gsl4/ggcode.c:4775-4815 | where the first operand decides, or is an error, the second is not evaluated |
| `OperatorLaws.ErrorsPass` | tooling/gsl4/ggcode.c:3894-4097 | an error in an operand that is needed is an error of the whole |
| `OperatorLaws.NumberNode` | tooling/gsl4/ggcode.c:3626-3656 | a number in a script has the value its digits spell, with its sign |
| `OperatorLaws.PointNode` | tooling/gsl4/ggcode.c:3626-3656 | so has a number with a point |
| `OperatorLaws.TextNode` | tooling/gsl4/ggcode.c:3724-3795 | a text written with escapes is that text, of a type not known yet |
| `OperatorLaws.LiteralNode` | tooling/gsl4/ggcode.c:3585-3606 | a literal is a string: its text behind the blanks before it |
| `OperatorLaws.SymbolNode` | tooling/gsl4/ggcode.c:3661-3693 | a symbol is looked up with its scope and name; an undefined scope makes it undefined; the result is never constant |
| `OperatorLaws.TextMeans` | tooling/gsl4/ggcomm.c:472-511 | a value is shown as the text it has, an item as its class says, and a number as a text that reads back within half a billionth |
| `Values.CompareIsOrder` | tooling/gsl4/ggcode.c:4585-4768 | the comparison of texts is the order by the first character that differs |
| `SortInPlace.FindMarks` | tooling/gsl4/ggcode.c:2108-2154 | the nested loops find for every scope item the first sibling behind it outside the scope |
| `SortInPlace.Parent.SortItems` | tooling/gsl4/ggcode.c:2065-2198 | after the moves the siblings outside the scope are where they were and the places of the scope hold the sorted items in order |
| `SortInPlace.InsertFillsPlace` | tooling/gsl4/ggcode.c:2159-2185 | moving the next item before its mark fills the next place of the scope |
| `SortInPlace.PlacedMeans` | tooling/gsl4/ggcode.c:2065-2198 | filling the places keeps the outsiders in order and position, and reading the places gives the new order |
| `SortInPlace.SaveKeys` | tooling/gsl4/ggcode.c:4205-4237 | keys are compared as texts if and only if some key is not a number, and saving keeps every key's text |
| `SortInPlace.SortedSiblings` | tooling/gsl4/ggcode.c:2202-2210 | the result has the same items, and of any two items of the scope the earlier has the smaller number or an equal one, or no text that the later one's comes before |
| `SortInPlace.GreaterMeans` | tooling/gsl4/ggcode.c:2202-2210 | the comparison the sort is given: greater as numbers, or later in the order of texts |
| `TemplateText.GetTemplateToken` | tooling/gsl4/ggpars.c:602-700 | the lexer's loops find the token that the definition by positions gives |
| `TemplateText.ScanText` | tooling/gsl4/ggpars.c:631-669 | the text loop ends at the end of the text, a backslash taking the next character along |
| `TemplateText.TokenCovers` | tooling/gsl4/ggpars.c:602-700 | every token is one of the known ones and advances unless the line has ended; its spaces, its width of characters and the blanks dropped behind it spell what it passed over, and only a line extension drops any |
| `TemplateText.TokenLoses` | tooling/gsl4/ggpars.c:672-691 | a token drops blanks if and only if such a backslash stands in what it passes over |
| `TemplateText.BlankIsLost` | tooling/gsl4/ggpars.c:672-691 | a line whose last blank is in no token and is not counted as a space |
| `TemplateText.Tokenize` | tooling/gsl4/ggpars.c:602-618 | repeated calls reach the end of any line; with the dropped blanks the tokens spell the line, and without them if and only if the line nowhere has an unescaped backslash with some blanks, and nothing else, between it and the end of the line or a newline; there is a substitution exactly wherever an unescaped dollar sign stands before an opening bracket |
| `TemplateText.TokenFinds` | tooling/gsl4/ggpars.c:631-669 | a token is a substitution exactly where one opens, and a text token has no blank that is not escaped |
| `TemplateText.ExtendsMeans` | tooling/gsl4/ggpars.c:640-655 | a line is extended by a backslash with only blanks between it and the end of the line or a newline |
| `TemplateText.TextIsEscaped` | tooling/gsl4/ggpars.c:631-669 | every backslash in a text token has a character behind it in the token |
| `TemplateText.EvaluateText` | tooling/gsl4/ggcode.c:3724-3795 | the two passes write exactly the text with its escapes replaced, in exactly the measured size |
| `TemplateText.ProtectedReads` | tooling/gsl4/ggcode.c:3762-3785 | every text can be written with escapes and comes out as itself: newline, return and tab by their letters, blank, dollar sign and backslash behind a backslash |
| `TemplateText.OneCharacter` | tooling/gsl4/ggcode.c:3762-3785 | an escaped character other than the three letters is itself |
| `TemplateText.EscapedAppend` | tooling/gsl4/ggcode.c:3762-3785 | texts written one after the other come out one after the other |
| `TrialDeletion.SymbolTables.ResetDone` | tooling/gsl4/ggsymb.c:64-88 | on any finite graph of tables the walk ends and clears exactly the marks of the tables it can reach |
| `TrialDeletion.SymbolTables.TestUnlink` | tooling/gsl4/ggsymb.c:92-118 | the depth-first walk ends and takes one link from the table for every reference to it that it meets |
| `TrialDeletion.SymbolTables.Release` | tooling/gsl4/ggsymb.c:449-489 | one link is given up; the table is deleted if and only if nobody outside holds it and every table that refers to it is reachable from it; otherwise all link counts are as after the single decrement |
| `TrialDeletion.SymbolTables.Destroy` | tooling/gsl4/ggsymb.c:139-152 | the whole cascade ends; the table is deleted exactly by the decision, no table without links is left, the links of every table that is left are its holds from outside and the references left to it, and only tables that nobody outside holds are deleted; without cycles no reference dangles and exactly the tables that can be got at are left |
| `TrialDeletion.NothingLeaks` | tooling/gsl4/ggsymb.c:449-489 | without cycles every table that is left can be got at from outside |
| `TrialDeletion.DiesAlone` | tooling/gsl4/ggsymb.c:449-489 | without cycles a table is deleted only when no table refers to it |
| `TrialDeletion.HeldByCounts` | tooling/gsl4/ggsymb.c:449-489 | whether a table can be got at from outside shows in the counts alone: it cannot if and only if all links of the tables leading to it are references from such tables |
| `TrialDeletion.DeletesIff` | tooling/gsl4/ggsymb.c:449-489 | what the code weighs: nobody outside holds the table itself, and every table that refers to it is reachable from it |
| `TrialDeletion.DecisionIsRightIff` | tooling/gsl4/ggsymb.c:449-489 | both errors exactly: a table that can be got at is deleted if and only if another table leading to it has a link not accounted for; garbage is kept if and only if a table refers to it that it does not lead to |
| `TrialDeletion.TrialEnds` | tooling/gsl4/ggsymb.c:92-118 | the trial takes away exactly the number of references from reachable tables |
| `TrialDeletion.TrialIsComplete` | tooling/gsl4/ggsymb.c:92-118 | nothing reachable escapes the trial, although it does not go through deleted tables or the table itself twice |
| `TrialDeletion.CycleMemberIsDeleted` | tooling/gsl4/ggsymb.c:449-489 | of two tables that point at each other the first is deleted although the second is held from outside |
| `TrialDeletion.GarbageIsKept` | tooling/gsl4/ggsymb.c:449-489 | a table that only a garbage cycle refers to is kept |
| `ScopeStack.ScopeByNumber` | tooling/gsl4/ggscop.c:37-59 | the two countdown loops find the scope the number stands for among the stacked ones |
| `ScopeStack.SameScope` | tooling/gsl4/ggscop.c:37-59 | a positive number and that number less the number of stacked scopes name the same scope, and a number names a scope exactly within these bounds |
| `ScopeStack.NumbersShift` | tooling/gsl4/ggscop.c:37-59 | a new innermost stacked scope is number zero, the others counted from the inside move by one and those counted from the outside stay |
| `ScopeStack.GetAfterPut` | tooling/gsl4/ggsymb.c:284-370 | what is put under a name is got, except that a value without text put over an item leaves the name undefined |
| `ScopeStack.StoreThenLookup` | tooling/gsl4/ggscop.c:327-410 | storing under a plain name succeeds if and only if there is a table to store in; then the name has that value, except in that one case, when it means what the other scopes say |
| `ScopeStack.ComputedNumberIsLost` | tooling/gsl4/ggsymb.c:337-350 | a computed number stored over an item leaves the name undefined |
| `ScopeStack.OtherNamesKept` | tooling/gsl4/ggscop.c:327-410 | whatever is stored or deleted, every symbol with another name means what it meant |
| `ScopeStack.Stack.SymbolValue` | tooling/gsl4/ggscop.c:197-323 | the loops over the stack give the value of the four-case definition |
| `ScopeStack.ScopedMeans` | tooling/gsl4/ggscop.c:225-253 | in the scope of an item a symbol is that item's attribute, or without a name the item |
| `ScopeStack.NumberMeans` | tooling/gsl4/ggscop.c:258-277 | a number is the item of the scope with that number |
| `ScopeStack.AliasMeans` | tooling/gsl4/ggscop.c:281-296 | a name is the innermost scope it is the alias of, whatever is defined |
| `ScopeStack.MatchesMeans` | tooling/gsl4/ggscop.c:284-287 | an alias matches letter by letter, and if case is ignored a capital its small letter |
| `ScopeStack.NameMeans` | tooling/gsl4/ggscop.c:298-318 | any other name is what the innermost stacked scope that defines it says, or nothing |
| `ScopeStack.Stack.FindDefiner` | tooling/gsl4/ggscop.c:138-193 | finds the innermost stacked scope that defines a name |
| `ScopeStack.Stack.StoreSymbol` | tooling/gsl4/ggscop.c:327-410 | stores where the name is defined, else in the outermost stacked scope, and deletes where no value is given |
| `ScopeStack.ScopedStoreMeans` | tooling/gsl4/ggscop.c:327-410 | in the scope of an item a value is stored in that item's table alone; in an undefined scope nothing is stored |
| `ScopeStack.DefinedNameIsStoredThere` | tooling/gsl4/ggscop.c:327-410 | a name some stacked scope defines is stored in the table of the innermost such scope and no other table changes |
| `ScopeStack.NewNameIsStoredOutermost` | tooling/gsl4/ggscop.c:375-386 | a name none defines is stored in the table of the outermost stacked scope and no other table changes |
| `ScopeStack.NewNameOutlivesScopes` | tooling/gsl4/ggscop.c:375-386 | when scopes end from the inside, every rest of the stack that still has a stacked scope finds the value |
| `ScopeStack.RemovalMeans` | tooling/gsl4/ggscop.c:327-410 | without a value the name is deleted in the innermost stacked scope that defines it and nowhere else |
| `ScopeStack.Stack.PutAttribute` | tooling/gsl4/ggsymb.c:284-370 | changes one name in one table, or nothing if that fails |
| `ScopeStack.Stack.Create` | tooling/gsl4/ggscop.c:415-439 | the new scope is the innermost and has number zero |
| `ScopeStack.Stack.CopyFrom` | tooling/gsl4/ggscop.c:565-597 | the copy has the same scopes in the same order, so that all lookups agree |
| `Mailbox.Context.Deliver` | tooling/gsl4/ggthrd.c:392-454 | the sender and the values are stored in order, each in the scope the stores before it have made, up to the first refusal; the message leaves the queue if and only if the answer is ok; there is exactly one answer |
| `Mailbox.PartArrives` | tooling/gsl4/ggthrd.c:392-454 | after an accepted message the first reference holds the sender and every other the value with its number, the last of several with one name, or nothing if the value is undefined |
| `Mailbox.OtherNamesStay` | tooling/gsl4/ggthrd.c:392-454 | a name that was not given keeps what it had, whether the message was accepted or not |
| `Mailbox.StoresAre` | tooling/gsl4/ggthrd.c:392-454 | what is stored, in the order of the references: one part for every reference that was given and has one |
| `Mailbox.Context.Send` | tooling/gsl4/ggthrd.c:458-487 | whatever was sent and asked before and in whatever order, the context is what the histories of sends and receives amount to |
| `Mailbox.Context.Receive` | tooling/gsl4/ggthrd.c:1065-1089 | the same for a receive, which is answered at once or waits |
| `Mailbox.AcknowledgedArePrefix` | tooling/gsl4/ggthrd.c:392-487 | nobody waits while there is a message, and the acknowledged messages are the first sent, the others being queued |
| `Mailbox.AnsweredInOrder` | tooling/gsl4/ggthrd.c:1065-1089 | receives are answered in order, once each, and only the last may be unanswered while no message is there |
| `Mailbox.AnswersConcernFirst` | tooling/gsl4/ggthrd.c:392-454 | every answer, ok or error, is the answer to the first message not acknowledged before |
| `Mailbox.SettleInStages` | tooling/gsl4/ggthrd.c:458-487 | sends and receives may be settled as they come or all at once: interleaving does not matter |
| `Mailbox.AcceptedIff` | tooling/gsl4/ggthrd.c:428-446 | a message is accepted if and only if every store it needs is, in the scope the stores before it have made |
| `Mailbox.LastPartHolds` | tooling/gsl4/ggthrd.c:392-454 | after an accepted message every reference holds the last part that went to it, or nothing if that was undefined |

## Left out

- The AMQP server, client, shell and wire code: only small main programs of them are in the repository's hand-written files.
- Files, sockets, processes, clocks, regular expressions, the XML class and the other GSL classes; items of other classes appear only as numbers with a text.
- The other lexers of `ggpars.c`, the flags for extension, stacking and dynamic nodes, and the split of names from scopes.
- Widths, spaces and brackets are unbounded integers; the 16-bit fields of the source wrap around.
- Parse nodes, result nodes, symbol tables and script lines are numbered instead of addressed.
- ExpressionHeap.Builder.ReadyFor: promises nothing about the nodes after the exception for an occupied field, because the parse is given up there.
- Error message texts, the switch between template and GSL mode, and the text of incoming lines.
- TrialDeletion.SymbolTables.Destroy: deleted tables keep their numbers; in a graph with cycles, where a table that is left may refer to a deleted one, the reading of freed memory is not modelled.
- ScriptCache.Cache.UnlinkLine: the part of the source that frees lines without a script is left out, because every line belongs to one.
- ScriptCache.Cache.CloseHandle: requires that a script whose last user closes it has lines, because the source reads the list head as a line where it has none.
- ScriptCache.Cache.FreeExcess: requires that the scripts it may free have no dangling block ends, because the source would read freed memory; loading, closing, linking what starts afresh, unlinking and evicting keep it so.
- ConstantCache.ScriptNode.Evaluate: covers text, number, literal, symbol, arithmetic, logical, comparison, default and conditional nodes; concatenation, substitution, member, attribute and call nodes are not cached here.
- NumberText.NumberRoundTrip: numbers are real numbers; the rounding of floating point, and the order of rounding in `%.9f` at ties, are not modelled; the buffer that cuts very long numbers off is not either.
- SortInPlace.Parent.SortItems: takes the sorted list as given, because the list sort is a library routine, and does not count references.
- ConcatLayout.Concatenate: takes the operands as a sequence; `ConcatenateResults` starts from the tree.
- ScopeStack.Stack.StoreSymbol: all scopes are symbol tables, and references to items are not counted.
- Mailbox.Context.Receive: a thread that waits does not receive again; destroying a context with queued messages is not modelled.
- Macro tables, attribute and member access on items, the formatting functions and the GSL function libraries, which would add only simple members.
