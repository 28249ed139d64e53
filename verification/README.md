# tsforge in Dafny

A Dafny model of the parts of tsforge where getting it right is hard: the subagent loop and its
schedulers, the Chrome bridge and its snapshots, the redaction cache, and four of the corpus
programs (JSON Patch, the query language, the task pool, login lockout and checkout).

Code that changes state step by step is a class or a method with its loop, proved against a
function or a step relation; what the code promises is then proved of that function, over every
input, every run or every interleaving. I/O, clocks, randomness, model inference, timers and the
network are parameters or events that may happen in any order.

`dafny verify dfyconfig.toml` checks the whole project.

| file | what it models |
|---|---|
| Pointer, JsonTree, JsonPatch, JsonLaws | JSON Pointer, the six JSON Patch operations on values, and their laws |
| JsonStandard | RFC 6901 and RFC 6902 on their own terms, and exactly where the code takes another step |
| JsonHeap, JsonGraph, JsonRun, JsonDraft | the same operations mutating a cloned draft in place, cell by cell, on any heap: shared cells and cycles included |
| JsonFold | that this is the fold over values where nothing is shared |
| QueryLexer, QueryParser, QueryRoundTrip, StableSort, QueryExecutor | query text to rows |
| QueryGrammar, QueryMeaning | which texts are which queries, and which rows a query keeps, in what order |
| BridgeHub, ExtConnection, BridgeSystem | the two ends of the Chrome bridge, and both over a lossy network |
| BridgeFate, ExtFate | over every run: what becomes of each request, and what each end holds on to |
| BridgeDelivery | the same of the whole: a handler's reply is the call's answer |
| Lanes, AgentScheduler, TaskPool | bounded concurrency under every interleaving |
| ToolAnswers, AgentRunner, ResultPayload, Transcript | the subagent loop, its tool-call bookkeeping, its results and its transcript |
| Html, HtmlParser, HtmlTokens, Snapshot, SnapshotLaws | the DOM snapshot printer, and a parser that undoes it |
| SnapshotNodes | which nodes of the page a snapshot shows, and as what |
| SnapshotCut | what the size cap does to a snapshot, exactly |
| Chunk, ChunkText | the markdown chunker, and what its chunks hold of the text |
| RedactCache | the redaction cache of saved sessions |
| Lockout, Checkout | login lockout, coupons and totals |
| Results, Digits, Whitespace | shared definitions |

## Where the code and its documentation part

The model follows the code. These are proved:

- `isInside` (patch.ts:169-173) compares raw text. It is always sound. It is the test on segments
  against every valid pointer exactly if the other pointer is valid too (`Pointer.MoveGuardNeedsValid`);
  "/~" into "/~0/x" is a move into itself that it misses (`Pointer.MoveGuardMissesBadEscapes`).
- `add` inserts `op.value` itself (patch.ts:133). If one object is the value of two operations, a
  later edit of one copy edits both and the result is not the fold's (`JsonGraph.SharedValueLeavesTheFold`);
  if it is part of the caller's document, that document is mutated (`JsonGraph.SharedWithCallerIsMutated`),
  and if no value shares with the document, it is not (`JsonRun.CallersDocumentStays`). However the
  values share, it is only if one of its own containers is the parent of an edit that the patch
  carried out (`JsonRun.DocumentStaysUnlessEdited`).
- A move from a pointer without segments that the guard lets by, as it does with a malformed one,
  inserts the document into itself: what is left reads as no JSON value (`JsonGraph.MoveFollows`).
- RFC 6902 lets a value move onto its own location and the whole document be added, replaced, copied
  or moved to; the code refuses these (`JsonStandard.RefusedEdits`). `Number(segment)` takes more texts
  for an array index than section 4 of RFC 6901: "", leading zeros (`JsonStandard.OddIndices`), signs,
  exponents and more; each of them, and no other segment, is a departure (`JsonStandard.PlainExactly`).
  These two are all there is for valid pointers (`JsonStandard.AgreesExactly`).
- The comparator behind ORDER BY need not order a column: it orders one under every lawful collation
  exactly if all its non-null values look like numbers, or none does, or all that do have the same
  text, given that `Number` reads the text of each value present as that value
  (`QueryExecutor.OrderableExactly`). `QueryExecutor.MixedColumnCycles` is one cycle.
- `steerInvestigateFirst` promises to answer every `agent_result` call, but answers a call without an
  id under "agent_result" while the request carries "call_<i>" for it (wire.ts:38-41). Every call is
  answered exactly when every steered call has an id (`ToolAnswers.SteeredTurnExact`).
- `finalizeAfterCap` promises never to return empty; it does exactly when the model's own
  `agent_result` has nothing to render and an empty `result` (`AgentRunner.AgentLoop.FinalizeAfterCap`,
  `ResultPayload.EmptyPayload`). `run` promises the same of every ending; it returns empty too when a
  free-form answer after investigation is, or what was thrown has no text and the transcript no digest
  (`AgentRunner.AgentLoop.Run`).
- The transcript's last cut keeps surrogate pairs whole (`Transcript.HardCutIsWellFormed`). Its cap on a
  single message splits a pair exactly when it falls behind a high surrogate (`Transcript.CapExactly`),
  and the transcript is well-formed text exactly when that happens to no message it keeps.
- A truncated snapshot can hold a closing tag without its opening tag, an opening tag without its
  closing tag, and a ref table entry whose element is not printed. Each happens exactly under a
  condition on the first part that does not fit (`SnapshotCut.TagsExactly`, `SnapshotCut.OpenExactly`,
  `SnapshotCut.TableExactly`).
- The redaction cache can serve a stale message: two edits between saves may restore the stamp
  (`RedactCache.TwoEditsGoUnseen`). A save writes what redacting from scratch would, whatever the
  scrubbers, exactly when the message holds what it held at the first save since which its content,
  its array of calls and its stamp have been the same (`RedactCache.CoherentExactly`). The content it
  writes is never stale, and an argument object edited in place is written as it is then
  (`RedactCache.ContentIsCurrent`).
- Redaction reads the content and the string arguments. What stands elsewhere in a message, in
  `reasoningContent`, a call's name or a string inside a list argument, is saved as it is
  (`RedactCache.WrittenIffUnread`, `RedactCache.ReasoningIsWritten`).
- `hardSplit` says it prefers a line break to a space; it cuts at whichever comes last. The cut is the
  preferred one exactly if the window's second half has no line break, or no space after its last
  (`Chunk.CutIsPreferredExactly`); "title\nto be" at size 9 is cut at the space (`Chunk.CutsAtTheSpace`).
- The coupon loop's running amount can go negative and still yields the clamped discount, for a
  percentage in any basket exactly when it lies in 0..100 (`Checkout.PercentRangeIsExact`).

## Model

| member | source | states |
|---|---|---|
| Pointer.TwoPassesAreOne | evals/corpus/json-patch/pointer.ts:4-7 | the two replace passes equal one left-to-right pass over the escapes, for every string |
| Pointer.DecodeUndoesEncode | evals/corpus/json-patch/pointer.ts:4-7 | decoding undoes encoding for every key, and every encoding is a valid segment |
| Pointer.EncodeUndoesDecode | evals/corpus/json-patch/pointer.ts:4-7 | encoding undoes decoding on every valid segment |
| Pointer.DecodeIsInjective | evals/corpus/json-patch/pointer.ts:4-7 | distinct valid segments name distinct keys |
| Pointer.ParseUndoesPrint | evals/corpus/json-patch/pointer.ts:10-16 | parsing the printed pointer of any key list gives the list, and that pointer is valid |
| Pointer.PrintUndoesParse | evals/corpus/json-patch/pointer.ts:10-16 | printing the parse of a pointer gives the pointer iff it is valid |
| Pointer.InsideImpliesPrefix | evals/corpus/json-patch/patch.ts:169-173 | for every two strings, the raw test implies that the decoded segments are a prefix |
| Pointer.InsideIsRawPrefix | evals/corpus/json-patch/patch.ts:169-173 | for every two strings, the raw test holds iff the undecoded tokens of `from` lead those of `path` |
| Pointer.MoveGuardIsExact | evals/corpus/json-patch/patch.ts:169-173 | for valid pointers the raw test holds iff the decoded segments of `from` are a prefix of those of `path` |
| Pointer.MoveGuardNeedsValid | evals/corpus/json-patch/patch.ts:169-173 | against every valid pointer the raw test is the test on segments iff the other pointer is valid, on either side |
| Pointer.MoveGuardMissesBadEscapes | evals/corpus/json-patch/patch.ts:169-173 | a concrete invalid pointer for which the test misses a move into itself |
| JsonStandard.AgreesExactly | evals/corpus/json-patch/patch.ts:175-239 | for every document and operation with valid pointers, whatever `Number` reads: the code's step is that of section 4 of RFC 6902 iff the operation is not a whole-document edit or same-location move of a value that is there, and does not go through at an array index that `Number` takes for one and the standard does not |
| JsonStandard.GoesExactly | evals/corpus/json-patch/patch.ts:109-239 | an operation goes through iff every value and container it names is there, the index is within the array, and the move is not into itself |
| JsonStandard.PlainOpsAgree | evals/corpus/json-patch/patch.ts:175-239 | an operation whose own text shows no such edit or move, and no segment that `Number` takes for an index and the standard does not, does what the standard says to every document |
| JsonStandard.PlainExactly | evals/corpus/json-patch/patch.ts:60-107 | code and standard agree on a location in every document iff its segment is not such a text |
| JsonStandard.PlainPatchesAgree | evals/corpus/json-patch/patch.ts:225-239 | a patch of such operations succeeds iff the standard's steps do, one after the other, and with the same document |
| JsonStandard.OddIndices | evals/corpus/json-patch/patch.ts:60-107 | "/00" and "/" name the first item for the code and nothing in the standard |
| JsonStandard.RefusedEdits | evals/corpus/json-patch/patch.ts:169-239 | a same-location move and the whole-document add, replace, copy and move: refused by the code, carried out by the standard |
| JsonStandard.ReadsAgree | evals/corpus/json-patch/patch.ts:82-107 | a read gives what the standard's evaluation gives, unless an array is met at an index that is none in the standard |
| JsonStandard.PutBack | evals/corpus/json-patch/patch.ts:109-167 | in the standard's terms, adding a value back where it was taken out restores the document |
| JsonPatch.RemovableIffReadable | evals/corpus/json-patch/patch.ts:145-167 | removing succeeds iff reading does, and fails with the same fault |
| JsonPatch.ReplaceIsRemoveThenAdd | evals/corpus/json-patch/patch.ts:182-186 | replace equals remove then add wherever there is something to remove (section 4.3 of RFC 6902) |
| JsonTree.UpdateErases | evals/corpus/json-patch/patch.ts:109-167 | editing a tree of heap cells and forgetting the cells commutes with editing the JSON value |
| JsonLaws.AddIsReadBack | evals/corpus/json-patch/patch.ts:109-143 | a successful add is read back at its concrete path, "-" becoming an index |
| JsonLaws.RemoveUndoesAdd | evals/corpus/json-patch/patch.ts:109-167 | removing what was added restores the document iff the slot was an array slot or a fresh key |
| JsonLaws.OtherReadsUnchanged | evals/corpus/json-patch/patch.ts:109-167 | every read apart from the edited slot gives the same value, up to the array index shift |
| JsonLaws.EditConserves | evals/corpus/json-patch/patch.ts:109-167 | every edit conserves the multiset of scalar leaves but for what it drops and brings |
| JsonLaws.MoveConserves | evals/corpus/json-patch/patch.ts:200-213 | every move brings the leaves of the value read and drops those of its source and of a member it lands on; so unless the source is the whole document it conserves all but that member's, and all of them onto an array slot or fresh key |
| JsonHeap.Frame | evals/corpus/json-patch/patch.ts:109-167 | a tree in the heap is unaffected by writes to cells that are not its own |
| JsonHeap.WriteIsUpdate | evals/corpus/json-patch/patch.ts:109-167 | overwriting the parent's one cell performs the edit at the whole path and leaves a proper tree |
| JsonHeap.UpdateFaults | evals/corpus/json-patch/patch.ts:52-80 | failing at the parent or its slot is failing at the path, with the same fault |
| JsonDraft.Heap.DeepEqual | evals/corpus/json-patch/patch.ts:26-46 | on any heap: true only of values alike at every depth, false only of values that differ, and no answer only if both nest as deep as calls may |
| JsonRun.ComparesJson | evals/corpus/json-patch/patch.ts:26-46 | so for values that read as JSON, shared containers or not, the answer is whether they are equal |
| JsonDraft.Heap.Clone | evals/corpus/json-patch/patch.ts:48-50 | on any heap: what the value leads to is copied to new cells, each cell once, sharing and cycles kept; existing cells untouched |
| JsonRun.CopyIsTree | evals/corpus/json-patch/patch.ts:48-50 | the copy of a tree is an equal tree in new cells |
| JsonRun.CopyDenotes | evals/corpus/json-patch/patch.ts:48-50 | whatever a value reads as, its copy reads as too |
| JsonDraft.Heap.ParentOf | evals/corpus/json-patch/patch.ts:52-80 | on any heap, shared cells or not, the loop finds the container the path without its last segment names, or the fault of the first segment that fails |
| JsonDraft.Heap.ReadAt | evals/corpus/json-patch/patch.ts:82-107 | on any heap, the value at the path or the fault on the way to it |
| JsonDraft.Heap.InsertAt | evals/corpus/json-patch/patch.ts:109-143 | on any heap and for any value, one cell is written as the insert or replace demands, or nothing changes and the fault says why |
| JsonDraft.Heap.RemoveAt | evals/corpus/json-patch/patch.ts:145-167 | on any heap, one cell is written without the value, or nothing changes and the fault says why |
| JsonDraft.Heap.TestValue | evals/corpus/json-patch/patch.ts:193-198 | on any heap the value at the path is compared with the given one, with the fault of the path, of the comparison, or of the stack; nothing changes |
| JsonFold.EditFollows | evals/corpus/json-patch/patch.ts:175-213 | on a tree the heap semantics of an edit is the value-level operation, but for a move of the document into itself |
| JsonFold.StepFollows | evals/corpus/json-patch/patch.ts:175-223 | on a tree every operation, copies and tests included, fails as the value-level operation fails or leaves its result, unless a test runs out of stack, or a move of the document into itself goes through and leaves what reads as no JSON |
| JsonFold.PatchIsFold | evals/corpus/json-patch/patch.ts:225-239 | for every document and operations whose values are trees apart: the caller's document is unchanged, and the outcome is the fold's first failure or document, unless a test of a value nested as deep as calls may runs out of stack or a move of the document into itself goes through |
| JsonRun.EditsRunTo | evals/corpus/json-patch/patch.ts:225-239 | a list without tests and copies has one outcome, the run of its edits |
| JsonGraph.InsertFollows | evals/corpus/json-patch/patch.ts:109-143 | on a tree, writing the one cell makes the draft the tree with the value inserted or replaced, or faults as the tree edit does |
| JsonGraph.RemoveFollows | evals/corpus/json-patch/patch.ts:145-167 | on a tree, writing the one cell makes the draft the tree without the value; no other cell changes |
| JsonGraph.MoveFollows | evals/corpus/json-patch/patch.ts:200-213 | on a tree a move is the value-level move, although the value itself is put back in; a move of the document into itself that the guard lets by fails likewise, or leaves what reads as no JSON value |
| JsonGraph.InsertKeepsClosed | evals/corpus/json-patch/patch.ts:109-143 | no insert leaves a dangling reference, whatever is shared |
| JsonGraph.RemovedIsDetached | evals/corpus/json-patch/patch.ts:207-211 | what a remove takes out shares no cell with what remains |
| JsonDraft.Heap.ApplyOne | evals/corpus/json-patch/patch.ts:175-223 | on any heap every operation does what the heap semantics says |
| JsonDraft.Heap.MoveValue | evals/corpus/json-patch/patch.ts:200-213 | on any heap: guard, read, remove, insert of the very value that was read |
| JsonDraft.Heap.CopyValue | evals/corpus/json-patch/patch.ts:215-218 | on any heap: a clone of the value read is inserted, or the fault of the path read |
| JsonDraft.Heap.ApplyPatch | evals/corpus/json-patch/patch.ts:225-239 | for every document, values and operations, sharing what they like: the outcome is a run of the operations on a copy of the document in new cells |
| JsonRun.PatchStaysWithin | evals/corpus/json-patch/patch.ts:225-239 | if the values lie in a region, no cell outside it that was there before is touched |
| JsonRun.CallersDocumentStays | evals/corpus/json-patch/patch.ts:225-239 | if no value shares a container with the caller's document, however they share with one another, the document reads as before |
| JsonRun.OnlyParentsChange | evals/corpus/json-patch/patch.ts:109-239 | in every run, a cell that was there before has changed only if it is the parent container of an edit that some operation carried out |
| JsonRun.DocumentStaysUnlessEdited | evals/corpus/json-patch/patch.ts:225-239 | so whatever is shared, the caller's document reads as before unless one of its own containers is such a parent |
| JsonGraph.RunStaysWithin | evals/corpus/json-patch/patch.ts:109-167 | edits of a draft and with values that lie in a region change nothing outside it and lead nowhere out of it |
| JsonGraph.MatchesDenotes | evals/corpus/json-patch/patch.ts:225-239 | a heap tree reads as the JSON value it stands for |
| JsonGraph.SharedValueLeavesTheFold | evals/corpus/json-patch/patch.ts:225-239 | add one object at /a and /b of an empty document, then 1 at /a/x: the operations leave the 1 in both places, the fold in one |
| JsonGraph.SharedWithCallerIsMutated | evals/corpus/json-patch/patch.ts:225-239 | an object of the caller's document as an operation's value: the operations on the clone change the caller's document |
| QueryLexer.Lex | evals/corpus/query/lexer.ts:73-227 | the loop computes the scan of the text, and stops on every input |
| QueryLexer.LexSymbol | evals/corpus/query/lexer.ts:113-180 | two-character operators are tried before one-character ones and delimiters |
| QueryLexer.LexRun | evals/corpus/query/lexer.ts:84-110 | the longest run of characters of a class, and where it ends |
| QueryLexer.ScanWord | evals/corpus/query/lexer.ts:73-227 | a word followed by white space or the end is scanned whole, as the token it spells |
| QueryLexer.ScanSpelled | evals/corpus/query/lexer.ts:73-227 | however a token list is spelled and spaced, scanning gives it back |
| QueryGrammar.ScanExactly | evals/corpus/query/lexer.ts:73-227 | for every text: scanning gives a token list iff the text is, but for white space, spellings of just these tokens, each as long as it can be; it fails iff it comes so to an unclosed quote or to a character no token begins with |
| QueryGrammar.Clauses | evals/corpus/query/lexer.ts:60-71 | SELECT, FROM, WHERE, ORDER BY and LIMIT in either case spell their keywords |
| QueryGrammar.Connectives | evals/corpus/query/lexer.ts:60-71 | AND, OR, ASC and DESC spell theirs |
| QueryGrammar.Signs | evals/corpus/query/lexer.ts:113-180 | the six comparison signs and the four delimiters spell theirs |
| QueryGrammar.Constants | evals/corpus/query/lexer.ts:84-110 | NULL, numbers and quoted texts are the constants they look like |
| QueryParser.Parser.ParseOrExpression | evals/corpus/query/parser.ts:195-206 | the loop parses a left-associated OR chain, and the cursor only moves forward |
| QueryParser.Parser.ParseAndExpression | evals/corpus/query/parser.ts:208-219 | the loop parses a left-associated AND chain |
| QueryParser.Parser.ParsePrimaryExpression | evals/corpus/query/parser.ts:221-289 | a parenthesized expression or a comparison, with the right error at each point |
| QueryParser.Parser.ParseColumns | evals/corpus/query/parser.ts:163-183 | the star or the comma-separated names in order |
| QueryParser.Parser.ParseWhere | evals/corpus/query/parser.ts:94-162 | the optional WHERE clause |
| QueryParser.Parser.ParseOrderBy | evals/corpus/query/parser.ts:94-162 | the optional ORDER BY clause, ascending unless said otherwise |
| QueryParser.Parser.ParseLimit | evals/corpus/query/parser.ts:94-162 | the optional LIMIT clause |
| QueryParser.Parser.ParseIdentifier | evals/corpus/query/parser.ts:185-193 | the name under the cursor, or an error without moving |
| QueryParser.Parser.Parse | evals/corpus/query/parser.ts:94-161 | the cursor-driven parse agrees with the grammar, all tokens consumed, for every token list |
| QueryGrammar.ParseExactly | evals/corpus/query/parser.ts:94-294 | for every token list and query: the parser gives the query iff the tokens are the query by a grammar that is not the parser: clauses in order, OR over AND over comparisons and parentheses, chains to the left |
| QueryRoundTrip.FullBack | evals/corpus/query/parser.ts:195-219 | an expression rendered with parentheses only where needed parses back, whatever follows |
| QueryRoundTrip.UnderAndBack | evals/corpus/query/parser.ts:208-219 | AND binds tighter than OR: only an OR needs parentheses under AND |
| QueryRoundTrip.ParseUndoesRender | evals/corpus/query/parser.ts:94-294 | parsing the tokens of any query gives the query |
| QueryRoundTrip.TextRoundTrip | evals/corpus/query/lexer.ts:73-227 | lexing and parsing the text of any well-formed query gives the query |
| QueryRoundTrip.AcceptedTextRoundTrips | evals/corpus/query/query.ts:7-19 | any text that is accepted denotes a query whose own rendering denotes it again |
| QueryRoundTrip.ParsedIsWellFormed | evals/corpus/query/parser.ts:94-294 | what text parses to is well formed, so the round trip covers all of it |
| StableSort.SortedIsTheStableOrder | evals/corpus/query/executor.ts:159-169 | a list is the stable sort iff it is a permutation, ordered, and keeps ties in input order |
| StableSort.StableOrderIsUnique | evals/corpus/query/executor.ts:159-169 | there is only one such list |
| StableSort.TieBreakingIsStable | evals/corpus/query/executor.ts:159-169 | sorting with the index as tie-breaker, then dropping the index, is the stable sort |
| StableSort.ArraySort | evals/corpus/query/executor.ts:162-166 | for every comparator a permutation; an ordered one if the comparator is a total preorder |
| StableSort.StableSorting | evals/corpus/query/executor.ts:159-169 | decorate, sort, undecorate: always a permutation, and the one stable order if the comparator is a total preorder |
| StableSort.FilterSorted | evals/corpus/query/executor.ts:12-23 | filtering and stable sorting commute for every predicate and preorder |
| QueryExecutor.OperatorsAgree | evals/corpus/query/executor.ts:62-121 | null satisfies nothing; otherwise exactly one of `=` and `!=`, at most one of `<` `=` `>`, with `<=` and `>=` their unions |
| QueryMeaning.LeafMeans | evals/corpus/query/executor.ts:62-121 | which values each comparison keeps: null by none but `!=`, numbers and texts read as numbers by value, texts by code units, anything else by `!=` alone |
| QueryMeaning.AndOrMean | evals/corpus/query/executor.ts:39-57 | for every query and rows: with `l AND r` it gives what it gives without WHERE on the rows that both select, and with `l OR r` on those that either selects, in input order |
| QueryMeaning.SelectionMeans | evals/corpus/query/executor.ts:12-16 | WHERE selects exactly the rows of which its expression holds, in input order |
| QueryExecutor.RowOrderPreorders | evals/corpus/query/executor.ts:123-157 | on a column whose values all look like numbers, or none of them, or with one text for all that do, the comparator is a total preorder, in both directions |
| QueryExecutor.OrderableExactly | evals/corpus/query/executor.ts:123-157 | where `Number` reads the text of each value of the column as that value: the comparator is a total preorder under every lawful collation iff the column is one of these |
| QueryExecutor.OneNumeralOrders | evals/corpus/query/executor.ts:123-157 | a mixed column for which this holds: the number 9 and the text "x" |
| QueryExecutor.MixedColumnCycles | evals/corpus/query/executor.ts:123-157 | on one column of another kind three values compare in a cycle |
| QueryExecutor.ProjectRowMeans | evals/corpus/query/executor.ts:171-193 | a projected row has exactly the named columns with its own values; it fails iff a column is missing, naming the first |
| QueryExecutor.ProjectColumns | evals/corpus/query/executor.ts:171-193 | the nested loops project every row, or stop at the first missing column |
| QueryExecutor.Execute | evals/corpus/query/executor.ts:5-37 | for every query and rows: filter, stable sort, limit and projection in that order; where the comparator orders nothing, the same of some rearrangement of the filtered rows |
| QueryExecutor.WherePushdown | evals/corpus/query/executor.ts:5-37 | filtering before or after sorting gives the same rows, hence the same query result |
| QueryExecutor.OrderByMeans | evals/corpus/query/executor.ts:18-26 | the sorted rows are the one ordered permutation with ties in input order, nulls last in both directions |
| QueryMeaning.RowsInOrder | evals/corpus/query/executor.ts:123-169 | on an orderable column the result is a permutation of the rows with every value where it may stand, numbers by value and nulls last, and rows that may stand either way in input order |
| QueryMeaning.MissingIsUndefined | evals/corpus/query/executor.ts:123-157 | a row without the column stands where the text "undefined" does |
| QueryMeaning.LimitMeans | evals/corpus/query/executor.ts:28-31 | LIMIT n gives the first n rows of the result without it, or all if they are fewer |
| QueryMeaning.ProjectRowsMean | evals/corpus/query/executor.ts:171-193 | row by row the named columns; it fails iff some row lacks one, with what the first such row lacks |
| QueryExecutor.RunQuery | evals/corpus/query/query.ts:7-19 | for every text and rows: empty, bad text, bad syntax, or the execution of the query the text denotes |
| QueryExecutor.RenderedQueryMeansItself | evals/corpus/query/query.ts:7-19 | the text of every well-formed query denotes that query |
| BridgeHub.StepShape | packages/core/src/chrome-bridge/bridge-connection.ts:71-128 | every socket or timer event either leaves the running request alone or settles exactly that one |
| BridgeHub.InvariantStep | packages/core/src/chrome-bridge/bridge-connection.ts:44-220 | every event keeps: calls made are the settled, the running and the waiting ones in order; a pending entry was sent on the active socket |
| BridgeHub.InvariantAlways | packages/core/src/chrome-bridge/bridge-connection.ts:44-220 | the same for every sequence of events |
| BridgeHub.SettleOnceInOrder | packages/core/src/chrome-bridge/bridge-connection.ts:128-172 | requests settle at most once and in the order made; at most one is pending, none without an active socket |
| BridgeFate.ActiveExactly | packages/core/src/chrome-bridge/bridge-connection.ts:119-202 | in every run a socket is active iff it said a good hello, no other has since, and it has not closed |
| BridgeFate.RequestFate | packages/core/src/chrome-bridge/bridge-connection.ts:102-172 | in every run, of the n-th request at its turn: Disconnected at once if no socket is connected; else sent on the connected socket under its own id, and Answered(reply), TimedOut or Disconnected iff the first event after it that decides is a frame with that id and reply on that socket, its timer, or that socket's close or replacement; without outcome iff there is none |
| BridgeFate.OutcomeHadTurn | packages/core/src/chrome-bridge/bridge-connection.ts:128-172 | every outcome is of a request that had its turn, so the former says which outcomes there are |
| BridgeFate.RunningHadTurn | packages/core/src/chrome-bridge/bridge-connection.ts:144-172 | and the running request is the next that has one |
| BridgeFate.WhyClosed | packages/core/src/chrome-bridge/bridge-connection.ts:70-202 | the hub closes a socket iff its hello is late or has another token, or another protocol, or another socket takes its place, each with its code |
| BridgeFate.FlagsExactly | packages/core/src/chrome-bridge/bridge-connection.ts:70-202 | in every run: outdated iff the last hello with the token spoke another version; on the clock iff opened and neither greeted, closed nor timed out since |
| BridgeHub.SocketHub.OnOpen | packages/core/src/chrome-bridge/bridge-connection.ts:70-78 | refines its step |
| BridgeHub.SocketHub.OnHelloTimeout | packages/core/src/chrome-bridge/bridge-connection.ts:72-75 | refines its step: the socket is closed and its timer forgotten |
| BridgeHub.SocketHub.OnMessage | packages/core/src/chrome-bridge/bridge-connection.ts:80-117 | refines its step: frames from any but the active socket are ignored except hello |
| BridgeHub.SocketHub.OnClose | packages/core/src/chrome-bridge/bridge-connection.ts:119-126 | refines its step: losing the active socket settles what was pending |
| BridgeHub.SocketHub.RequestJob | packages/core/src/chrome-bridge/bridge-connection.ts:128-142 | refines its step: requests queue |
| BridgeHub.SocketHub.RunNext | packages/core/src/chrome-bridge/bridge-connection.ts:144-172 | refines its step: fails at once without a socket, else sends under a new id |
| BridgeHub.SocketHub.OnRequestTimeout | packages/core/src/chrome-bridge/bridge-connection.ts:160-166 | refines its step: the entry goes, the call times out |
| BridgeHub.SocketHub.RejectPending | packages/core/src/chrome-bridge/bridge-connection.ts:213-219 | the loop empties the table and settles each entry once |
| BridgeHub.SocketHub.OnHelloFrame | packages/core/src/chrome-bridge/bridge-connection.ts:174-202 | refines its step: token, then protocol, then replacement of the previous socket |
| ExtConnection.BackoffGrows | packages/chrome-extension/src/connection.ts:56-59 | backoff never shrinks with the attempt and lies in 1000..30000 ms |
| ExtConnection.SoundStep | packages/chrome-extension/src/connection.ts:72-229 | every event keeps: no socket beside an armed retry, a ping timer only on the live socket, halted means neither; only configure lifts a halt; ensure leaves a socket or a retry |
| ExtConnection.AlwaysSound | packages/chrome-extension/src/connection.ts:61-229 | the same over all sequences of events, with the n-th delay since a reset the n-th backoff |
| ExtConnection.DelaysGrow | packages/chrome-extension/src/connection.ts:182-215 | delays between welcomes or reconfigurations never shrink |
| ExtFate.PartsExactly | packages/chrome-extension/src/connection.ts:72-229 | in every run: halted iff closed for a bad token since last configured; a retry on the way iff lost otherwise, unless replaced, and not retried since; a socket, and pings on it, since it was made, or welcomed, and until it is lost |
| ExtFate.NeverStuck | packages/chrome-extension/src/connection.ts:72-229 | with a token, unless halted or replaced, there is always a socket or a retry on the way |
| ExtFate.BackoffDoubles | packages/chrome-extension/src/connection.ts:56-59 | each wait is twice the one before, from 1000 ms up to 30000 |
| ExtFate.WhyActs | packages/chrome-extension/src/connection.ts:72-229 | what each event sends, opens, closes or hands to the handler, as an iff each |
| ExtFate.WhyStatus | packages/chrome-extension/src/connection.ts:72-229 | which status is shown when, as an iff |
| ExtConnection.Connection.ConfigureWith | packages/chrome-extension/src/connection.ts:72-79 | refines its step: drop everything, then open anew |
| ExtConnection.Connection.EnsureOpen | packages/chrome-extension/src/connection.ts:81-123 | refines its step |
| ExtConnection.Connection.OnMessage | packages/chrome-extension/src/connection.ts:125-143 | refines its step: frames of a socket that is not the current one are ignored |
| ExtConnection.Connection.OnPing | packages/chrome-extension/src/connection.ts:163-173 | refines its step: pings only on the socket it was armed for |
| ExtConnection.Connection.OnClose | packages/chrome-extension/src/connection.ts:182-215 | refines its step: halt, stay put or back off by close code |
| ExtConnection.Connection.OnRetry | packages/chrome-extension/src/connection.ts:205-214 | refines its step |
| ExtConnection.Connection.Drop | packages/chrome-extension/src/connection.ts:217-228 | no socket and no timer are left; the socket is closed |
| BridgeSystem.MoveKeeps | packages/core/src/chrome-bridge/bridge-connection.ts:80-219 | every move of hub, extension, network and strangers keeps the two ends consistent |
| BridgeSystem.AlwaysConsistent | packages/core/src/chrome-bridge/bridge-connection.ts:80-219 | the same for every run |
| BridgeSystem.AnswerComesFromFrame | packages/core/src/chrome-bridge/bridge-connection.ts:102-116 | a request that succeeds does so on a result frame with its id on the active socket |
| BridgeSystem.DeliverToExtKeeps | packages/chrome-extension/src/connection.ts:125-161 | the handler is called at most once for a request frame |
| BridgeSystem.EndToEnd | packages/chrome-extension/src/connection.ts:145-161 | in every run with closes, replacements, timeouts, lost frames and late answers: a success carries what the handler returned for that very request; each settles at most once; at most one is pending, on the active socket |
| BridgeDelivery.FateInTheWhole | packages/core/src/chrome-bridge/bridge-connection.ts:102-172 | in every run of hub, extension, network and strangers, the fate of each request is the former |
| BridgeDelivery.RequestArrives | packages/chrome-extension/src/connection.ts:116-161 | a request frame that reaches the extension while it is on its socket, behind whatever frames, calls the handler with its `what` |
| BridgeDelivery.ReplyArrives | packages/core/src/chrome-bridge/bridge-connection.ts:102-117 | the handler returns and its frame reaches the hub, behind whatever frames, while the request is pending: the call is Answered with just that reply |
| BridgeDelivery.RoundTrip | packages/core/src/chrome-bridge/bridge-connection.ts:102-172 | so a request that has its turn with both ends on one socket, and whose frames get through, is Answered with what the handler returned for it |
| AgentScheduler.ClampConcurrency | packages/core/src/agent/agent-scheduler.ts:29-36 | at least one, the floor of a cap that is one or more, one for anything else |
| AgentScheduler.InvariantStep | packages/core/src/agent/agent-scheduler.ts:107-119 | every step keeps: started units are a prefix, each once; slots hold their own unit's outcome; nothing starts after an abort |
| AgentScheduler.InvariantAlways | packages/core/src/agent/agent-scheduler.ts:94-125 | the same under every interleaving of completions, failures and an abort |
| AgentScheduler.ConcurrencyBound | packages/core/src/agent/agent-scheduler.ts:88-125 | at most min(cap, n) units are in flight, always |
| AgentScheduler.NoLaneIdles | packages/core/src/agent/agent-scheduler.ts:88-125 | and just min(cap, n) are, whenever every lane waits for its unit or has stopped while units are left and nobody aborted |
| AgentScheduler.AtTheEnd | packages/core/src/agent/agent-scheduler.ts:88-125 | slot i holds unit i's outcome, null if it failed or never started; without an abort every unit ran |
| AgentScheduler.StepsRunOut | packages/core/src/agent/agent-scheduler.ts:107-119 | every lane step leaves less to do |
| AgentScheduler.NotStuck | packages/core/src/agent/agent-scheduler.ts:107-119 | a lane that has not stopped can step |
| AgentScheduler.Scheduler.ResumeLane | packages/core/src/agent/agent-scheduler.ts:107-119 | the head of a worker's loop refines its step |
| AgentScheduler.Scheduler.SettleLane | packages/core/src/agent/agent-scheduler.ts:56-86 | storing an awaited outcome refines its step, a throw giving null |
| AgentScheduler.Scheduler.Turn | packages/core/src/agent/agent-scheduler.ts:107-119 | whichever lane goes next, the invariant and the bound hold and work decreases |
| AgentScheduler.RunParallel | packages/core/src/agent/agent-scheduler.ts:94-125 | ends with one slot per unit in submission order: its own outcome for a prefix, null after; all of them without an abort |
| TaskPool.InvariantStep | evals/corpus/task-pool/pool.ts:22-49 | every step keeps the pool's invariant, and no task starts after the first rejection is recorded |
| TaskPool.InvariantAlways | evals/corpus/task-pool/pool.ts:14-65 | the same under every interleaving |
| TaskPool.ConcurrencyBound | evals/corpus/task-pool/pool.ts:51-54 | at most min(limit, n) tasks are in flight, always |
| TaskPool.NoWorkerIdles | evals/corpus/task-pool/pool.ts:17-54 | and just min(limit, n) are, whenever every worker waits for its task or has stopped while tasks are left and none was rejected |
| TaskPool.SortedRejections | evals/corpus/task-pool/pool.ts:56-63 | sorting lists exactly the recorded rejections, in strictly increasing index order |
| TaskPool.AtTheEnd | evals/corpus/task-pool/pool.ts:14-65 | resolves iff every task ran and succeeded, values in input order; otherwise exactly the errors of the started tasks that rejected, by index; started tasks are a prefix |
| TaskPool.StepsRunOut | evals/corpus/task-pool/pool.ts:22-49 | every worker step leaves less to do |
| TaskPool.NotStuck | evals/corpus/task-pool/pool.ts:22-49 | a worker that has not stopped can step |
| TaskPool.Pool.ResumeLane | evals/corpus/task-pool/pool.ts:22-37 | the head of a worker's loop refines its step; `next` moves on even when it returns |
| TaskPool.Pool.SettleLane | evals/corpus/task-pool/pool.ts:39-45 | storing a value, or recording the error and aborting, refines its step |
| TaskPool.Pool.Turn | evals/corpus/task-pool/pool.ts:22-49 | whichever worker goes next, the invariant holds and work decreases |
| TaskPool.RunPool | evals/corpus/task-pool/pool.ts:3-65 | rejects bad limits; else ends resolved with every value in order, or rejected with exactly the errors of the tasks it ran |
| ToolAnswers.ToolsSettle | packages/core/src/inference/wire.ts:15-53 | tool messages settle what is pending iff they carry exactly the pending ids |
| ToolAnswers.TurnAnswered | packages/core/src/inference/wire.ts:15-53 | a turn of calls and answers leaves the list in order iff the answers' ids are the calls' wire ids |
| ToolAnswers.SteerMatchesWire | packages/core/src/agent/agent-runner.ts:505-519 | the steer's ids are the calls' wire ids iff every call came with an id |
| ToolAnswers.SteeredTurnExact | packages/core/src/agent/agent-runner.ts:498-519 | a steered turn leaves every call answered iff it was so before and every call has an id, duplicates included |
| AgentRunner.AgentLoop.Compact | packages/core/src/agent/agent-runner.ts:174-213 | the conversation becomes the system message and the provider's summary iff there is anything but system messages and the provider answers; else it is untouched |
| AgentRunner.AgentLoop.CompactNearFull | packages/core/src/agent/agent-runner.ts:1016-1053 | compacts iff the last prompt filled 0.8 of the window less its reserve; a failed compaction leaves the conversation as it was |
| AgentRunner.AgentLoop.SendOrRetry | packages/core/src/agent/agent-runner.ts:1055-1087 | the first reply stands unless it is an overflow, nobody aborted and there is more than two messages; then one compaction, and the reply to the compacted conversation |
| AgentRunner.AgentLoop.CompleteWithCompaction | packages/core/src/agent/agent-runner.ts:993-1092 | at most three provider calls; the response is the provider's latest, to the conversation as it stands, and its usage is remembered |
| AgentRunner.AgentLoop.SteerInvestigateFirst | packages/core/src/agent/agent-runner.ts:498-519 | appends one answer per rejected result call, in order |
| AgentRunner.AgentLoop.Steer | packages/core/src/agent/agent-runner.ts:831-846 | the conversation stays orderly iff every rejected call has an id, and records when not |
| AgentRunner.AgentLoop.Ask | packages/core/src/agent/agent-runner.ts:486-528 | asks under `required` while real tools exist, nothing was investigated and turns remain; appends the model's message to what was sent |
| AgentRunner.AgentLoop.Investigate | packages/core/src/agent/agent-runner.ts:820-829 | runs exactly the calls that are not `agent_result`, and only that counts as investigation |
| AgentRunner.AgentLoop.FinalizeOrNudge | packages/core/src/agent/agent-runner.ts:960-991 | accepts iff free-form and either investigated or not blank; otherwise the conversation grows |
| AgentRunner.AgentLoop.TakeTurn | packages/core/src/agent/agent-runner.ts:776-878 | a turn ends the run iff its response hands in a result after investigation or without real tools, or, free-form, has no calls and investigated or is not blank; the output is what the first result handed in says, or the content; the next turn starts from what was sent, what came back and its answers |
| AgentRunner.AgentLoop.FinalizeAfterCap | packages/core/src/agent/agent-runner.ts:892-958 | the output is what the last response's first result says, or its content, or else the model's last words or a digest; empty iff the model's own result says nothing |
| AgentRunner.AnswersNothing | packages/core/src/agent/agent-runner.ts:444-480 | a response that hands in a result comes to an empty output iff its first result says nothing |
| ResultPayload.EmptyPayload | packages/core/src/agent/agent-runner.ts:444-480 | the payload is empty iff there is no summary and no finding to render and the text, or the `result`, is empty |
| ResultPayload.PayloadSays | packages/core/src/agent/agent-runner.ts:444-480 | for all arguments: the payload is the summary, then in order one line for every finding with a detail, with its source and confidence, and no other text is; without any of these the `result`, or the JSON |
| ResultPayload.EmptyResultIsEmpty | packages/core/src/agent/agent-runner.ts:465-480 | the payload of an empty `result` is empty |
| AgentRunner.AgentLoop.Run | packages/core/src/agent/agent-runner.ts:533-890 | a finished run hands over what the first `agent_result` of the last response heard says, or that response's content if it has none, and accepted results follow investigation; every other ending hands over what its place says, and an empty output has exactly the named causes; every main request has all earlier calls answered unless an id-less result call was steered; at most 3 * (maxTurns + 1) provider calls |
| Transcript.BuildBoundedTranscript | packages/core/src/agent/agent-runner.ts:91-172 | for every conversation and maxChars > 0 the result has at most maxChars units; it is the marker and the longest fitting suffix with the newest message, and how it degrades; it is well-formed text iff no message kept was cut within a pair |
| Transcript.PickNewest | packages/core/src/agent/agent-runner.ts:121-143 | the loop picks the longest suffix that fits, the newest message always |
| Transcript.PickedIsLongest | packages/core/src/agent/agent-runner.ts:121-143 | exactly one suffix is picked: the longest that fits with a separator to spare, or else the newest message alone |
| Transcript.TranscriptSays | packages/core/src/agent/agent-runner.ts:91-172 | for maxChars >= 80: the number of messages left out, if any, then the others in order, each with its role and its content whole, or its first units and the mark of a cut |
| Transcript.NothingIsCut | packages/core/src/agent/agent-runner.ts:145-171 | for maxChars >= 80 and up to 10^30 messages the final cut never fires |
| Transcript.MarkerLength | packages/core/src/agent/agent-runner.ts:145-146 | the elision marker takes at most 62 units for counts below 10^30 |
| Transcript.CapExactly | packages/core/src/agent/agent-runner.ts:113-119 | the cap leaves a well-formed message well formed iff the message fits or the unit before the cut is no high surrogate |
| Transcript.HardCutIsWellFormed | packages/core/src/agent/agent-runner.ts:157-171 | the last cut leaves well-formed text well formed, for every length |
| Transcript.JoinExactly | packages/core/src/agent/agent-runner.ts:145-156 | joined parts are well formed iff each part is |
| Transcript.TranscriptExactly | packages/core/src/agent/agent-runner.ts:91-172 | for every well-formed conversation and maxChars > 0 the transcript is well formed iff no message kept has a pair split by its own cap |
| Transcript.CapSplitsPairs | packages/core/src/agent/agent-runner.ts:113-119 | for every budget from 23 on some tool result is capped in the middle of a surrogate pair |
| Html.PassesAreOne | packages/chrome-extension/src/snapshot.ts:59-68 | the escaping passes in their order equal one pass over characters |
| Html.UnescapeUndoes | packages/chrome-extension/src/snapshot.ts:59-68 | unescaping undoes escaping, and no angle bracket (in attributes: no quote) survives |
| Html.MarkupIs | packages/chrome-extension/src/snapshot.ts:59-68 | what each character is written as, in text and in attributes |
| Html.TagsAre | packages/chrome-extension/src/snapshot.ts:95-117 | what tags and attributes are written as |
| HtmlParser.AllBack | packages/chrome-extension/src/snapshot.ts:165-200 | a plain tag parser gives back every printed normal forest, whatever closing tag follows |
| HtmlParser.NormalizeSound | packages/chrome-extension/src/snapshot.ts:165-200 | merging adjacent text does not show in print |
| HtmlParser.ParseUndoesRender | packages/chrome-extension/src/snapshot.ts:165-200 | parsing undoes printing up to merging adjacent text |
| HtmlTokens.WhollyParsedPrintsBack | packages/chrome-extension/src/snapshot.ts:165-200 | whatever sequence of tags and texts the parser reads to its end prints back as it was |
| Snapshot.WriteAttrs | packages/chrome-extension/src/snapshot.ts:95-117 | the growing string is the kept attributes in order, then the link, then the ref |
| Snapshot.Walker.PushText | packages/chrome-extension/src/snapshot.ts:119-128 | a part that does not fit is left out whole and marks the walk truncated |
| Snapshot.Walker.AssignTo | packages/chrome-extension/src/snapshot.ts:130-149 | an allowed element takes the next ref, in the table and the list |
| Snapshot.Walker.WalkTree | packages/chrome-extension/src/snapshot.ts:165-200 | the recursive walk over light children then shadow children refines the step functions |
| Snapshot.Walker.Snapshot | packages/chrome-extension/src/snapshot.ts:202-226 | the whole record after the walk of the body |
| SnapshotLaws.SizeIsLength | packages/chrome-extension/src/snapshot.ts:119-128 | the counter is the output's length and stays within the cap, truncated or not |
| SnapshotLaws.SnapshotIsPrint | packages/chrome-extension/src/snapshot.ts:202-226 | truncated iff the whole text would not fit; else the output is the sanitized page's print, refs are consecutive in document order, and the table holds exactly them, each naming its own element |
| SnapshotNodes.ScriptShows | packages/chrome-extension/src/snapshot.ts:165-200 | for every page: the parts a snapshot is made of are, each once and in document order, those of exactly the texts and elements that neither are nor stand within anything hidden or dropped, nor within a void element |
| SnapshotNodes.OnlyVisible | packages/chrome-extension/src/snapshot.ts:119-200 | truncated or not, whatever is printed, and every element in the table, is one of these |
| SnapshotNodes.RefsAreFor | packages/chrome-extension/src/snapshot.ts:130-149 | refs go, in document order, to exactly the elements of these that the click policy takes |
| SnapshotNodes.PageShows | packages/chrome-extension/src/snapshot.ts:165-226 | an untruncated snapshot prints exactly these, in document order and nested as deep as they are, texts as they are and elements by their names and listed attributes |
| SnapshotNodes.AttributesAre | packages/chrome-extension/src/snapshot.ts:95-117 | an element prints those of the listed attributes that it has, in the listed order, then its link, then its ref |
| SnapshotLaws.RefsLabelOwnElements | packages/chrome-extension/src/snapshot.ts:95-149 | ref n stands on exactly one element of the page, the print of the n-th clickable |
| SnapshotLaws.SnapshotTable | packages/chrome-extension/src/snapshot.ts:130-149 | even when truncated the table holds exactly the refs given out |
| SnapshotLaws.ParsingUndoesSnapshot | packages/chrome-extension/src/snapshot.ts:202-226 | parsing an untruncated snapshot recovers exactly the sanitized page |
| SnapshotCut.RunIsSnapshot | packages/chrome-extension/src/snapshot.ts:165-226 | for every page and cap, running the list of the page's parts, skipping after a cut all but what is still open, is the recursive walk |
| SnapshotCut.PrintedExactly | packages/chrome-extension/src/snapshot.ts:119-200 | the output is the parts in front of the first that does not fit, and after it closing tags opened no later; truncated iff there is such a part |
| SnapshotCut.TableExactly | packages/chrome-extension/src/snapshot.ts:130-200 | every printed ref is in the table; a ref of the table is not printed iff the first part that does not fit is the opening tag that carries it |
| SnapshotCut.TableNamesOwn | packages/chrome-extension/src/snapshot.ts:130-149 | truncated or not, each ref of the table names the very element whose opening tag carries it, and the list has the refs given in document order with their clicks |
| SnapshotCut.TagsExactly | packages/chrome-extension/src/snapshot.ts:119-200 | a closing tag is printed without its opening tag iff the first part that does not fit is a non-void opening tag and its closing tag fits in its place, and then it is that one |
| SnapshotCut.OpenExactly | packages/chrome-extension/src/snapshot.ts:119-200 | an opening tag is printed without its closing tag iff the closing tags still owed at the first part that does not fit do not fit together |
| SnapshotCut.ParsingUndoesExactly | packages/chrome-extension/src/snapshot.ts:202-226 | parsing the snapshot gives the sanitized page iff the whole page fits the cap |
| SnapshotLaws.TruncatedIsTorn | packages/chrome-extension/src/snapshot.ts:119-128 | for every cap from 32 on some page leaves a closing tag unmatched and an unprinted ref in the table |
| Chunk.CutIsLastBreak | packages/core/src/chrome-bridge/chunk.ts:13-23 | a cut is at the last line break or space of the window's second half, and in a word only if that half has none |
| Chunk.CutIsPreferredExactly | packages/core/src/chrome-bridge/chunk.ts:13-21 | the cut is at the last line break of the window's second half, else its last space, else the limit, iff that half has no line break or no space after its last one |
| Chunk.CutsAtTheSpace | packages/core/src/chrome-bridge/chunk.ts:13-21 | a text that is cut at the space although there is a line break |
| Chunk.PiecesKeepInk | packages/core/src/chrome-bridge/chunk.ts:9-28 | cutting a paragraph loses nothing but white space |
| Chunk.HardSplit | packages/core/src/chrome-bridge/chunk.ts:9-28 | the loop stops for every size of at least one and yields the pieces, each within the size |
| ChunkText.CutsExactly | packages/core/src/chrome-bridge/chunk.ts:9-28 | for every text and size, a piece list is what the text is cut into iff each cut is at the last line break or space of the window's second half, or else at its end, with the white space around the cut gone and no other |
| Chunk.ParagraphsKeepInk | packages/core/src/chrome-bridge/chunk.ts:30-33 | splitting at empty lines loses nothing but white space |
| Chunk.ParagraphsHaveNoGap | packages/core/src/chrome-bridge/chunk.ts:30-33 | no paragraph has an empty line inside |
| ChunkText.ParagraphsExactly | packages/core/src/chrome-bridge/chunk.ts:30-33 | for every text: its paragraphs are exactly what stands between its longest runs of two or more line feeds |
| Chunk.Pack | packages/core/src/chrome-bridge/chunk.ts:34-53 | chunks are runs of consecutive blocks, and the first block of the next would not have fitted |
| ChunkText.GlueMeans | packages/core/src/chrome-bridge/chunk.ts:34-53 | a chunk is its blocks with one empty line between any two, but for empty blocks in front |
| ChunkText.ParagraphStaysWhole | packages/core/src/chrome-bridge/chunk.ts:30-54 | every paragraph that fits a chunk stands whole in one, and so does every piece of one that does not |
| Chunk.ChunkMarkdown | packages/core/src/chrome-bridge/chunk.ts:30-54 | every chunk within the size, none empty unless the only one, the other characters conserved in order, packed greedily |
| RedactCache.ArgsStamp | packages/core/src/session-store.ts:444-462 | the nested loops add up the names' and values' lengths |
| RedactCache.Redactor.RedactArgs | packages/core/src/session-store.ts:513-528 | every string argument scrubbed, code keys as code; everything else kept, in order |
| RedactCache.Redactor.RedactToolCalls | packages/core/src/session-store.ts:506-511 | every call with its arguments scrubbed, nothing else changed |
| RedactCache.Redactor.RedactOne | packages/core/src/session-store.ts:470-498 | a hit is served as cached; a miss is redacted and cached |
| RedactCache.Redactor.RedactMessages | packages/core/src/session-store.ts:464-499 | the save's output is the cache's entry for each message, in order |
| RedactCache.AnswerIsCached | packages/core/src/session-store.ts:470-499 | what a save writes for a message is one message's own history, whatever else is saved |
| RedactCache.RedactsOnDisk | packages/core/src/session-store.ts:464-528 | redacting a message and then writing it out is redacting what it would be written as |
| RedactCache.WritesExactly | packages/core/src/session-store.ts:464-528 | a redacted message holds exactly the scrubbed content and string arguments, and as they are the strings of copied fields, calls' ids and names, and non-string arguments |
| RedactCache.WrittenIffUnread | packages/core/src/session-store.ts:464-528 | a string the scrubbers keep out is written iff the message has it where no scrubber looks |
| RedactCache.WrittenByTheOther | packages/core/src/session-store.ts:464-528 | a string that only one scrubber keeps out is written iff unread or given by the other one at its own places: file texts in `content`, `oldString` and `newString`; the message's content and every other string argument |
| RedactCache.ReasoningIsWritten | packages/core/src/session-store.ts:482-528 | reasoning content and a string inside a list argument are saved as they are |
| RedactCache.AnswerIsSince | packages/core/src/session-store.ts:470-499 | in every history each answer is the redaction of what the message held at the first save since which its content, its array of calls and its stamp have been the same |
| RedactCache.ContentIsCurrent | packages/core/src/session-store.ts:425-499 | what is written then has the current content, argument objects edited in place as they are now, and a kept-out string iff the message had it unread |
| RedactCache.CoherentExactly | packages/core/src/session-store.ts:425-499 | for every message of every save: the save writes what redacting from scratch would, for every scrubber, iff the message, as it would be written now, is what it was at that first save |
| RedactCache.TwoEditsGoUnseen | packages/core/src/session-store.ts:425-462 | two edits that each change the stamp can go unseen together |
| Lockout.Accounts.SignUp | evals/corpus/auth/accounts.ts:40-65 | over the history of all calls: refused for a weak password, or for an address that has a password, and otherwise an account |
| Lockout.Accounts.LogIn | evals/corpus/auth/accounts.ts:67-106 | over the history of all calls: a token, for an hour, iff the account's first successful sign-up was with a password that hashes as this one and the guesses since do not lock it |
| Lockout.PasswordStays | evals/corpus/auth/accounts.ts:40-106 | in every run an account keeps the password of its first successful sign-up, whatever logins, lockouts, repeated sign-ups and other accounts come between |
| Lockout.LoginExactly | evals/corpus/auth/accounts.ts:67-106 | in every run a login is compared iff its account is signed up and the guesses before do not lock it, and then it is right iff its password hashes as that of the first sign-up |
| Lockout.CounterIsStreak | evals/corpus/auth/accounts.ts:67-106 | in every run the counter is the current run of failures, five by five, at most five, with the latest failure's time |
| Lockout.LockedExactly | evals/corpus/auth/accounts.ts:79-88 | a login goes unread iff the failures in a row are a positive multiple of five and the last is under fifteen minutes old |
| Lockout.RoomIsKept | evals/corpus/auth/accounts.ts:67-106 | wrong passwords compared plus the room left never exceed five per right one, plus five |
| Lockout.RateBound | evals/corpus/auth/accounts.ts:67-106 | in every run and half-open 15-minute window at most five wrong passwords are compared for an account, and five more per successful login, whatever other accounts do |
| Checkout.RoundingError | evals/corpus/checkout/pricing.ts:3-5 | half-up rounding is within half a unit, the half itself only upwards |
| Checkout.NegativeHeals | evals/corpus/checkout/coupons.ts:14-50 | against a running amount that may be negative, a coupon leaves, clamped at zero, what the clamped fold leaves |
| Checkout.ApplyCoupons | evals/corpus/checkout/coupons.ts:52-72 | for every subtotal, coupons and lines the loop computes what goes off the unclamped running amount, capped by the subtotal |
| Checkout.UnclampedIsClamped | evals/corpus/checkout/coupons.ts:52-72 | that discount is the clamped fold's, between nothing and the subtotal, for coupons in their documented range |
| Checkout.CouponMeans | evals/corpus/checkout/coupons.ts:14-50 | a coupon takes off its percentage of what is left to half a cent, or its amount or the free items' price as far as what is left goes |
| Checkout.FreeMeans | evals/corpus/checkout/coupons.ts:32-42 | for every quantity one of every two items of the article's first line is free, and nothing if it is not in the basket |
| Checkout.PercentRangeIsExact | evals/corpus/checkout/coupons.ts:20-26 | a percentage keeps the discount the clamped fold's in every basket iff it lies in 0..100 |
| Checkout.AboveHundredPaysBack | evals/corpus/checkout/coupons.ts:20-26 | 150 percent after an overdraft: 1.50 off 2.00 where the clamped fold takes off 2.00 |
| Checkout.Checkout | evals/corpus/checkout/cart.ts:21-56 | 0 <= discount <= subtotal, the outer clamp never fires, the books balance, and tax is within half a cent of exact |
| Checkout.ClampedMeans | evals/corpus/checkout/cart.ts:26-35 | each line sells what was ordered as far as the stock goes, at its own price |
| Checkout.SubtotalIsSum | evals/corpus/checkout/cart.ts:37-40 | the subtotal is the prices of all items sold, one by one |

## Left out

- ToIndex: which texts `Number` takes for a nonnegative integer is left open but for digits and "-"; digits are read exactly, whatever their value, where JavaScript rounds beyond 2^53, more than an array has items.
- JsonDraft.Heap: containers are cells of a heap of values; JavaScript's property order, sparse arrays, `undefined`, `NaN` and `__proto__` are not modelled. How deep calls may nest is a parameter, and only the comparison is counted against it.
- JSON numbers are integers; error messages are data, not text.
- QueryExecutor.Execute: where the comparator orders nothing, only that some rearrangement of the filtered rows comes out.
- `Number`, `String` of a number and `localeCompare` are parameters of the query model; `Array.prototype.sort` is any sort that orders and permutes, shown here by an insertion sort.
- Strings are Dafny character sequences except in the transcript, which works on UTF-16 code units.
- Checkout: percentages and amounts are integers; floating-point rounding is not modelled.
- BridgeHub: the texts of failures, the constant-time comparison of tokens and the parsing of frames are not modelled; `send` does not throw.
- ExtConnection: status reports are events; the handler's own work is any reply at any time.
- AgentRunner: prompts, tool schemas, reports, streaming and model inference are data or an arbitrary provider; `runToolCalls` answers each call in order or throws; the summarizer's own request is not logged as a main one; the auto-compact fraction is taken as exactly 0.8.
- AgentRunner: `buildSalvageDigest` and the text of what is thrown are parameters; `JSON.stringify` is a parameter of the result payload, never empty; `outputKind`, durations and recorded events are not modelled.
- AgentScheduler: unit signals, progress callbacks and run-time options are not modelled; a unit's outcome is fixed by its index in `RunParallel`, and arbitrary in the lemmas over interleavings.
- Snapshot: visibility, the click policy, accessible names and the resolving of links are what the page says; the parser is this project's own.
- RedactCache: the secret patterns are two abstract scrubbers; an argument that is not a string is an object of which each save says what it is written as and which strings are inside.
- Lockout: password strength, hashing and tokens are abstract, and sessions' own expiry check is not modelled.
- `refsIn`, `calculateDiscount`, `applyFixedDiscount` and `validateSession` are short computations with nothing to add.
- Terminal, panes and scripts, real sockets, timers, file system, HTTP and LSP; `models-config.ts`, argument parsing and repair, version comparison and reports.
