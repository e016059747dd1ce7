# Verification of the AST editing engine

This project models, in Dafny 4.11, how the SQL rewriter addresses, edits and
re-anchors its generic protobuf syntax tree, and proves what callers rely on:

- **Rebase.** After text edits every source coordinate of the tree is re-anchored
  without a new parse. The edit list is checked, statement spans and edits must
  nest, points are mapped by a cursor with a running delta, and stores are planned
  first and applied later (`SourceEdits`, `InverseEdits`, `StatementSpans`,
  `RebaseCursor`, `ProtoTree`, `RebasePlan`, `TreeRebase`, `RebaseTransaction`,
  `RebaseMeaning`, `RebaseEligibility`, `RebaseStores`).
- **Ordinals.** Names, nodes, messages, clauses and literals are numbered by
  recursive walkers with count, find-by-index and find-by-identity modes and with
  early exits. Each walker is proved against one pure enumeration; the laws are
  about the enumerations (`OrdinalSearch`, `AstTree`, `Parentheses`, `NameWalk`,
  `NameBulk`, `NameLaws`, `NameParentheses`, `NodeWalk`, `NodeLaws`, `MessageWalk`,
  `StringWalk`, `ClauseWalk`, `WhereWalk`, `ClauseLaws`, `ClauseOrdinals`, `LiteralWalk`,
  `LiteralLaws`, `LiteralView`, `StatementLiterals`, `LiteralEdits`, `LiteralLens`). What
  an enumeration holds is stated once more from the tree alone, by kind and field names
  and without the functions the walkers use (`NameMeaning`, `TreeContents`, `ClauseOwners`,
  `LiteralMeaning`, `TreeEdits`).
- **Renames.** The log of renamed identifier slots, relation paths whose three
  records enter and leave the log together, and the prepare/apply/clear rewriting
  of bound qualifiers with every allocation accounted for (`ChangeLog`, `Renames`,
  `RenameRuns`, `RenameOutcomes`, `SpellingRuns`, `QualifierPlans`, `RelationRename`,
  `QualifierRuns`).
- **Cloning.** Deep copies of messages when any allocation may fail (`CloneTree`).
- **List surgery.** SELECT target lists and the paired lists of RETURNING ... INTO
  (`TargetEdits`, `TargetOrdinals`, `PairedInto`).
- **Identifier text.** Rendering and scanning of quoted identifiers, U& escapes and
  dotted paths (`Scanner`, `Quoting`, `PathText`, `UnicodeText`, `ScannerLaws`).

Conventions. A pointer of the tree is an address (`nat`) or, in the rebase, an
object. Allocation that may fail is a nondeterministic choice, a flag, or a budget
of allocations that still succeed. A commit, a parser call, a dialect callback or
a spelling lookup is a parameter holding its outcome. Sizes are unbounded except
where the program tests a limit.

Places where the code does less than one might expect are stated as results, with
an input and the exact condition:

- An explicitly given spelling can be dropped: by the rename that gives it
  (`SpellingRuns.SpellingLost`) and by a later relation path that does not touch
  the slot (`SpellingRuns.SpellingLostByPath`). `SpellingRuns.SpellingIsRecorded`
  says over whole runs exactly when the last spelling given to a slot is still there.
- A select list can be rendered from another SELECT than its own
  (`ClauseOrdinals.DistinctOnRendersTheOuterList`).
  `ClauseOrdinals.ClausesRenderThemselves` says for which statements that cannot
  happen to select lists and to SET lists; WHERE clauses are always read from their
  own slot (`WhereWalk.WhereIndexIsSlotOrdinal`).
- A relation call that fails after its first relation took the path, at the second
  relation or while it plans the qualifiers, leaves the new path and its log records
  beside the old qualifiers. `RelationRename.PathBesideOldQualifiers` is such an input;
  the contract of `RelationRename.Replace` says from the inputs which exit is taken, and
  that the call is all or nothing if and only if the first relation refuses the path,
  everything behind it succeeds, or no relation that took the path was named otherwise.

## Model

| member | source | states |
|---|---|---|
| SourceEdits.EditsValid | src/core/sqlparser_ast_rebase.c:24-57 | accepts exactly the edit lists that are nonempty, sorted, disjoint and in bounds, with nonempty replacements and with new length = old length + summed deltas |
| SourceEdits.EditedSplit | src/core/sqlparser_ast_rebase.c:24-57 | the reference text of an edit list can be cut at any point between two edits |
| SourceEdits.AcceptedGap | src/core/sqlparser_ast_rebase.c:113-145 | a point lies strictly inside no edit exactly when the one edit the code looks at does not start before it |
| SourceEdits.FragmentMeaning | src/core/sqlparser_ast_rebase.c:113-145 | the new text between two mapped points is the old text between the points with exactly its own edits applied |
| SourceEdits.UneditedByte | src/core/sqlparser_ast_rebase.c:113-145 | every byte outside the edits keeps its value at its mapped position |
| SourceEdits.ReplacedText | src/core/sqlparser_ast_rebase.c:113-145 | the mapped ends of an edit enclose its replacement in the new text |
| SourceEdits.MapStrict | src/core/sqlparser_ast_rebase.c:113-145 | accepted points keep their strict order, so no positive length becomes zero |
| SourceEdits.MapInBounds | src/core/sqlparser_ast_rebase.c:139-145 | the final range check on a mapped point never fails |
| SourceEdits.DeltaInRange | src/core/sqlparser_ast_rebase.c:102-145 | the running delta never leaves the range of the text lengths |
| InverseEdits.InverseValid | src/core/sqlparser_ast_rebase.c:24-57 | swapping source and replacement spans of a valid list gives a valid list with the two lengths exchanged |
| InverseEdits.MapThereAndBack | src/core/sqlparser_ast_rebase.c:113-145 | mapping an accepted point along the edits and back along the inverse edits is the identity |
| InverseEdits.UndoRestoresSource | src/core/sqlparser_ast_rebase.c:24-57 | applying the inverse edits to the new text gives the old text back |
| StatementSpans.StatementSpansValid | src/core/sqlparser_ast_rebase.c:147-189 | accepts exactly when the spans are ordered, disjoint, in bounds, only the last with the zero sentinel, and every edit lies inside some statement |
| StatementSpans.BordersAccepted | src/core/sqlparser_ast_rebase.c:147-220 | no edit straddles a border of a validated span, so both borders can be mapped |
| StatementSpans.SpanMapped | src/core/sqlparser_ast_rebase.c:191-220 | a span's ends map to the ends of the rebased span, and a length is the zero sentinel after the rebase exactly if it was before |
| StatementSpans.SpansSurvive | src/core/sqlparser_ast_rebase.c:147-220 | the rebased spans are again ordered, disjoint and in bounds of the new text |
| StatementSpans.StatementText | src/core/sqlparser_ast_rebase.c:147-220 | the new text of a statement is its old text with exactly the edits it contains applied |
| RebaseCursor.Cursor.Seek | src/core/sqlparser_ast_rebase.c:118-138 | leaves the cursor behind the last edit ending at or before the point with the matching delta, moving over no edit twice |
| RebaseCursor.Cursor.Point | src/core/sqlparser_ast_rebase.c:113-145 | whatever was asked before, answers exactly for the accepted points in bounds, with the reference position |
| RebaseCursor.Cursor.Pair | src/core/sqlparser_ast_rebase.c:191-220 | a location and length pair moves by its two end points, negative locations and zero lengths staying, exactly when both ends are accepted |
| RebaseCursor.SortedWalkIsLinear | src/core/sqlparser_ast_rebase.c:118-138 | over a nondecreasing sequence of points a fresh cursor moves at most as often as there are edits |
| RebasePlan.Plan.Grow | src/core/sqlparser_ast_rebase.c:62-100 | a grown buffer holds the same writes; a failed allocation leaves the old buffer |
| RebasePlan.Plan.Record | src/core/sqlparser_ast_rebase.c:62-100 | appends exactly one write for a value that differs and nothing for one that does not; refuses only a write that does not fit into the buffer |
| TreeRebase.Rebase.Field | src/core/sqlparser_ast_rebase.c:320-385 | lets a field through exactly when the reference does, and plans the store of its location only |
| TreeRebase.Rebase.Own | src/core/sqlparser_ast_rebase.c:307-385 | the first pass over a message plans every changing slot of it and only right values |
| TreeRebase.Rebase.Members | src/core/sqlparser_ast_rebase.c:386-444 | the second pass over a field walks exactly its active children, each present and of the declared type |
| TreeRebase.Rebase.Walk | src/core/sqlparser_ast_rebase.c:280-444 | succeeds exactly for eligible trees unless memory runs out, which takes more than the 64 stores that fit inline and more than had been planned; the plan then holds every changing slot of everything below and nothing else, one store for each visit; it ends even on cyclic heaps |
| RebaseTransaction.Build | src/core/sqlparser_ast_rebase.c:446-481 | writes no message; Ready means the tree is eligible and the plan complete, Miss means it is not eligible, OutOfMemory means that more than 64 stores are needed, and on both the plan is released |
| RebaseTransaction.Apply | src/core/sqlparser_ast_rebase.c:483-490 | turns every message of the planned group into its reference image and leaves all others alone |
| RebaseTransaction.GroupIsReachable | src/core/sqlparser_ast_rebase.c:386-444 | the rewritten messages are exactly those reachable from the root |
| RebaseMeaning.LocationMeaning | src/core/sqlparser_ast_rebase.c:113-145 | the text before and behind a rebased location is the edited old text before and behind the old location |
| RebaseMeaning.StatementsStayValid | src/core/sqlparser_ast_rebase.c:147-220 | where the messages of the statements are rebased, the parse result has well-formed statement spans, the images of the old ones |
| RebaseMeaning.RebaseResult | src/core/sqlparser_patch.c:11539-11581 | plan, other preparations and stores together: either no message is touched, or in exactly the messages below an eligible parse result every active int32 field named location or name_location that is not negative holds its mapped value, the statement pairs are moved by their ends, every other slot keeps its value, and the statements stand well formed in the new text |
| RebaseEligibility.TreeMeans | src/core/sqlparser_ast_rebase.c:280-444 | a tree is eligible exactly if every message that active children lead to passes, each test written out by field name, type and kind |
| RebaseEligibility.ResultMeans | src/core/sqlparser_ast_rebase.c:24-481 | a parse result is rebased exactly if its edits fit, its statements fit, and every message that active children lead to passes |
| RebaseStores.StoresMean | src/core/sqlparser_ast_rebase.c:62-100 | the stores counted for a message are one for each of its slots that the rebase changes and those of each active child, as often as it is held |
| RebaseMeaning.UndoRestoresScalars | src/core/sqlparser_ast_rebase.c:280-490 | rebasing a message back along the inverse edits restores every scalar slot |
| OrdinalSearch.Search.Record | src/core/sqlparser_ast.c:1280-1358 | recording one entry steps the search state of the three modes |
| OrdinalSearch.CountIsLength | src/core/sqlparser_ast.c:1280-1358 | count mode returns the length of the enumeration |
| OrdinalSearch.IndexFinds | src/core/sqlparser_ast.c:1280-1358 | index mode returns the entry with that index and nothing past the end |
| OrdinalSearch.MatchFinds | src/core/sqlparser_ast.c:1648-1690 | identity mode returns the index of the one entry with that address, with or without an early exit |
| OrdinalSearch.SearchesAreInverse | src/core/sqlparser_ast.c:1648-1690 | finding by identity after reading by index is the identity, and conversely; an index exists exactly below the count |
| NameWalk.Walk | src/core/sqlparser_ast.c:1480-1646 | the walk with its early exits and its fused Node shortcut runs the search over the enumeration that visits every wrapper |
| NameWalk.FusedNode | src/core/sqlparser_ast.c:1500-1535 | visiting a Node's child in the wrapper's place gives the same names |
| NameMeaning.NamesAre | src/core/sqlparser_ast.c:1480-1646 | the names of a statement are exactly the strings, of messages reached over active fields, that are identifiers in the context they are reached in |
| NameMeaning.ContextMeans | src/core/sqlparser_ast.c:1224-1278 | what context a child gets: its parent's through a container, a wrapper or parentheses, and otherwise the parent and the field, with the names of a LIKE or SIMILAR TO pattern call forbidden |
| NameMeaning.AtomMeans | src/core/sqlparser_ast.c:1116-1222 | a nonempty string that the deciding policy calls an identifier is a name, with the owner and field it is reported under |
| NameBulk.Bulk.Walk | src/core/sqlparser_name_bulk.c:65-147 | fills the buffer with the views of the enumeration as far as they fit and counts all; fails exactly on a broken array |
| NameBulk.StatementNames | src/core/sqlparser_name_bulk.c:149-189 | a short buffer gets the exact prefix and the full total with ResourceLimit, slots that get no name keep their contents, a broken tree gives InternalError and count zero |
| TreeContents.IntactMeans | src/core/sqlparser_name_bulk.c:65-147 | a tree counts as broken exactly if a message reached over active fields has a repeated field without an array and with a count |
| NameBulk.FilledAt | src/core/sqlparser_name_bulk.c:28-63 | slot k holds view k of the enumeration if it fits and its former contents otherwise |
| NameLaws.BulkEqualsOrdinal | src/core/sqlparser_name_bulk.c:65-189 | the k-th bulk view is the view the ordinal reader gives for index k, and both end at the same count |
| NameLaws.OmitNames | src/core/sqlparser_ast.c:1480-1646 | leaving location owners out changes no other part of any name |
| NameParentheses.ParenthesesAreTransparent | src/core/sqlparser_ast.c:1224-1278 | taking away all grouping parentheses changes no name ordinal, slot, value, location owner, owner type or field |
| NodeWalk.Walk | src/core/sqlparser_ast.c:1992-2116 | the node-slot walk runs the search over the enumeration without grouping and DML-tail wrappers |
| NodeWalk.NodeSlotByIndex | src/core/sqlparser_ast.c:2240-2288 | returns the slot and parent of the node with that ordinal exactly below the count |
| NodeWalk.Find | src/core/sqlparser_ast.c:2118-2238 | finds the first counted node that is, or wraps the constant that is, asked for, together with its ordinal |
| TreeContents.NodesAre | src/core/sqlparser_ast.c:1992-2116 | the node slots are exactly the slots, in active fields of messages of the tree, with a Node that counts, entered under the Node or the constant it wraps |
| TreeContents.CountsMeans | src/core/sqlparser_ast.c:1919-1963 | a Node counts unless it wraps an indirection without subscripts, or is the SELECT of a DML tail, the sublink around it, or the target around that |
| TreeContents.NodesInOrder | src/core/sqlparser_ast.c:1992-2116 | a Node comes right before those below it, and slots come field by field and entry by entry |
| NodeLaws.ReadThenFind | src/core/sqlparser_ast.c:2118-2288 | looking up the ordinal of the node at an ordinal gives that ordinal back |
| NodeLaws.ParenthesesAreTransparent | src/core/sqlparser_ast.c:1948-1963 | parentheses around any subtree change no node ordinal |
| MessageWalk.Walk | src/core/sqlparser_ast.c:1360-1474 | the message walk, which offers a Node to the filter and then visits its child in its place, runs the search over the preorder enumeration |
| MessageWalk.SelectByIndex | src/core/sqlparser_ast_select.c:83-116 | returns the SELECT with that target-list ordinal exactly below the count |
| MessageWalk.FindSelect | src/core/sqlparser_ast_select.c:118-190 | the count-then-probe loop finds the first SELECT with that identity; a SELECT without a target list is refused, and one that is not there is an internal error |
| TreeContents.MessagesAre | src/core/sqlparser_ast.c:1360-1474 | the enumeration of messages has exactly the accepted messages reached over active fields |
| TreeContents.MessagesInOrder | src/core/sqlparser_ast.c:1360-1474 | an accepted message comes right before those below it, which come field by field and entry by entry |
| StringWalk.Walk | src/core/sqlparser_ast.c:1698-1826 | the string-slot walk with its early exit runs the search over the enumeration of all string slots |
| StringWalk.SlotByIndex | src/core/sqlparser_ast.c:1828-1859 | returns the string slot with that ordinal exactly below the count |
| StringWalk.IndexBySlot | src/core/sqlparser_ast.c:1861-1910 | succeeds exactly for a slot of the statement, with the first ordinal it has |
| TreeContents.StringsAre | src/core/sqlparser_ast.c:1698-1826 | the string slots are exactly those of active fields of messages reached over active fields, empty ones included |
| TreeContents.StringsInOrder | src/core/sqlparser_ast.c:1698-1826 | they come field by field and entry by entry |
| StringWalk.NamesAreStrings | src/core/sqlparser_ast.c:1480-1826 | the name slots are some of the string slots in the same order, whatever the identifier policies say |
| ClauseWalk.ClauseSearch.Record | src/core/sqlparser_ast_clause.c:150-187 | recording a clause bumps the counter of its kind and takes the target |
| ClauseWalk.ClauseSearch.Walk | src/core/sqlparser_ast_clause.c:189-329 | runs the search over the clause enumeration and restores the operand depth |
| ClauseWalk.Resolve | src/core/sqlparser_ast_clause.c:331-390 | resolves ordinal k to the k-th clause, with the number of earlier clauses of its kind as its internal index; a condition has only clause 0 |
| WhereWalk.Walk | src/core/sqlparser_ast_where.c:111-215 | the WHERE walk with its early exits runs the search over the enumeration of WHERE slots |
| WhereWalk.SlotByIndex | src/core/sqlparser_ast_where.c:250-289 | returns the WHERE slot with that ordinal exactly below the count |
| WhereWalk.WheresAreSlots | src/core/sqlparser_ast_clause.c:205-329 | the WHERE clauses in clause order hang in the WHERE slots in the order of the WHERE walk |
| WhereWalk.WhereIndexIsSlotOrdinal | src/core/sqlparser_ast_clause.c:839-840 | the internal index of a WHERE clause is the ordinal of its own slot in the WHERE walk |
| ClauseOwners.NumberedWhereItStands | src/core/sqlparser_ast_clause.c:24-329 | every message is numbered with a clause exactly as often as it stands at a place where it has that clause: a WHERE that is there or can be added, a nonempty list, an ORDER BY that is there or, outside operands and DML tails, can be added |
| ClauseOwners.ClausesLeadHome | src/core/sqlparser_ast_clause.c:189-329 | a numbered select list or ORDER BY leads to its own SELECT, and a WHERE hangs in the slot of its own message |
| ClauseOwners.ClauseComesFirst | src/core/sqlparser_ast_clause.c:205-329 | a clause is numbered right in front of those that stand in it, unless it is the ORDER BY of a set operation |
| ClauseLaws.KindAndIndexNameOneClause | src/core/sqlparser_ast_clause.c:150-187 | ordinals and pairs of kind and internal index are in bijection |
| ClauseLaws.OperandsShowOnlyRealOrderBy | src/core/sqlparser_ast_clause.c:127-148 | below an operand of a set operation only SELECTs with a sort clause contribute an ORDER BY |
| ClauseLaws.SetOrderByComesLast | src/core/sqlparser_ast_clause.c:322-329 | a set operation's ORDER BY comes after all clauses below it |
| ClauseLaws.ListsFollowStatements | src/core/sqlparser_ast_clause.c:236-253 | the select lists in clause order are the SELECTs in target-list order, and the SET lists the UPDATEs in order, if and only if nothing scanned before such a list holds a statement with one |
| ClauseOrdinals.ReadClause | src/core/sqlparser_ast_clause.c:804-860 | an ORDER BY is read from the SELECT found with it; select lists, SET lists and WHERE clauses are read by internal index through walkers of their own, and a WHERE clause always from its own slot |
| ClauseOrdinals.ClausesRenderThemselves | src/core/sqlparser_ast_clause.c:837-846 | every select list is rendered from its own SELECT, and every SET list from its own UPDATE, if and only if nothing scanned before such a list holds a statement with one |
| ClauseOrdinals.DistinctOnRendersTheOuterList | src/core/sqlparser_ast_clause.c:837-839 | a concrete SELECT DISTINCT ON with a subquery whose first clause, the list of the subquery, is rendered as the outer list |
| ChangeLog.PreparedEntries | src/core/sqlparser_ast_statement.c:210-323 | preparing a slot keeps all records and adds at most one, for that slot, with its current name as original |
| ChangeLog.KeepEntries | src/core/sqlparser_core.c:516-535 | taking records out removes exactly their slots' records |
| Renames.Handle.Prepare | src/core/sqlparser_ast_statement.c:210-323 | finds or appends the record of a slot and changes nothing when memory runs out |
| Renames.Handle.RemovePrepared | src/core/sqlparser_ast_statement.c:325-354 | removing highest position first takes out exactly the flagged records |
| Renames.Handle.SetName | src/core/sqlparser_ast_statement.c:2372-2651 | the whole effect of a rename on names, log and status, for every refusal and failure |
| RenameOutcomes.NameSucceeds | src/core/sqlparser_ast_statement.c:2372-2651 | the status of a rename from its inputs, and whatever the log holds it succeeds exactly if its arguments are usable and it changes nothing, or nobody refuses it and memory, staging and commit go well; then that slot alone has the new name, and of a call that fails before the commit nothing is left |
| RenameOutcomes.FailedCommit | src/core/sqlparser_ast_statement.c:2592-2615 | a rename whose commit fails leaves the new name, in a record that was there too, but no new record and no new spelling, and poisons the handle |
| Renames.Handle.Settle | src/core/sqlparser_ast_statement.c:2611-2649 | drops a restored name's record, or the whole group of a wholly restored relation |
| Renames.Handle.PreparePath | src/core/sqlparser_ast_statement.c:503-535 | prepares the three records of a relation or none of them |
| Renames.Handle.Place | src/core/sqlparser_ast_statement.c:536-708 | once prepared, either the whole path is changed or the log is exactly as before |
| Renames.Handle.ReplaceRelation | src/core/sqlparser_ast_statement.c:366-708 | the whole effect of a new relation path on names, log and status |
| RenameOutcomes.PathSucceeds | src/core/sqlparser_ast_statement.c:366-708 | the status from the inputs, and a relation takes a path exactly if nothing changes, or spellings and memory are there, its records are in one group at most and a group number is left if they have none; then its three slots have the new values; of a call that fails nothing is left |
| Renames.UndoCreated | src/core/sqlparser_ast_statement.c:325-354 | taking the created records out again gives the earlier log back |
| RenameRuns.RunKeeps | src/core/sqlparser_ast_statement.c:246-708 | after any run of successful and failed calls every record holds the parse-time and the current name of its slot and groups are whole relations, until a commit fails |
| RenameRuns.ReplaceKeeps | src/core/sqlparser_ast_statement.c:552-590 | a new relation path keeps the invariant, and inconsistent provenance cannot be met |
| RenameRuns.RelationsAreLoggedWhole | src/core/sqlparser_ast_statement.c:533-667 | after any run the three slots of a relation carry the same group, shared with no other relation |
| RenameRuns.PlainLogIsTheDifference | src/core/sqlparser_ast_statement.c:2372-2651 | after any run of renames without spelling a slot is logged, once and with its parse-time name, exactly if its name differs from it |
| RenameRuns.PlainUndoEmptiesTheLog | src/core/sqlparser_ast_statement.c:2592-2615 | when such a run ends with all parse-time names the log is empty |
| RenameOutcomes.RunEndsAsAsked | src/core/sqlparser_ast_statement.c:366-2651 | after any run of renames and relation paths that nothing stops every slot has the name that the last call for it asked for |
| RenameOutcomes.UnspelledLogIsNeeded | src/core/sqlparser_ast_statement.c:366-2651 | after any run of both kinds without spellings a slot is logged if its name differs from the parse-time one, and only if it or another of its relation differs |
| RenameOutcomes.ThereAndBackLeavesNothing | src/core/sqlparser_ast_statement.c:366-2651 | a run of both kinds without spellings that nothing stops, and that ends by asking for the parse-time names, leaves names and log as the parse left them |
| SpellingRuns.SpellingIsRecorded | src/core/sqlparser_ast_statement.c:246-708 | over any run of calls of both kinds the last spelling given to a slot is recorded at the end if and only if no later call renames the slot without one and no call from then on takes its relation back to the parse-time names as a whole; otherwise none is recorded |
| SpellingRuns.SpelledMeans | src/core/sqlparser_ast_statement.c:366-502 | a part of a path gets the spelling that comes with it, the borrowed one if it is renamed without, and none if it is empty |
| SpellingRuns.PathSpelling | src/core/sqlparser_ast_statement.c:366-708 | what a relation path does to the spelling of every slot, of those it leaves unchanged too |
| SpellingRuns.PathKeepsSpelling | src/core/sqlparser_ast_statement.c:552-558 | the spelling of a slot that a path leaves unchanged survives if and only if some part does not return to its parse-time name or is given a spelling |
| SpellingRuns.NameSpelling | src/core/sqlparser_ast_statement.c:2592-2649 | what a rename does to the spelling of every slot: its own is replaced, and all of a relation go when the rename completes its return |
| SpellingRuns.SpellingIsKeptUnlessRelationIsRestored | src/core/sqlparser_ast_statement.c:2592-2649 | the rename that gives a spelling leaves it recorded if and only if it does not restore a whole grouped relation |
| SpellingRuns.SpellingLostByPath | src/core/sqlparser_ast_statement.c:552-665 | a concrete run in which a relation path drops the spelling of a slot it does not change |
| SpellingRuns.SpellingLost | src/core/sqlparser_ast_statement.c:2616-2649 | a concrete run in which a rename drops the spelling it was given |
| QualifierPlans.Store.PrepareColumn | src/core/sqlparser_ast_statement.c:952-1049 | ends with exactly the status of the first thing that fails, among form, memory and spelling lookup; a finished plan spells the last parts of the new path, as many as there were qualifiers, before the same column node (`Store.Rewrite` says so place by place); nothing allocated before changes |
| QualifierPlans.Store.PrepareAssignment | src/core/sqlparser_ast_statement.c:1051-1141 | the same for a qualified assignment target, whose first part is a string |
| QualifierPlans.Store.Apply | src/core/sqlparser_ast_statement.c:1143-1192 | hands the new name and array to the reference and the old ones to the plan |
| QualifierPlans.Store.Clear | src/core/sqlparser_ast_statement.c:894-950 | frees exactly what the plan holds, applied or not, each address once |
| QualifierPlans.Store.PrepareAll | src/core/sqlparser_ast_statement.c:1576-1633 | plans all bindings, allocating an array of plans for columns and one for targets; the status is that of the first binding that cannot be planned |
| QualifierPlans.PlannedExactly | src/core/sqlparser_ast_statement.c:1576-1633 | planning succeeds if and only if all qualified references are well formed, the path is not empty, the spellings of the columns that move are found, and the budget covers the summed allocations |
| QualifierPlans.Store.Rewrite | src/core/sqlparser_ast_statement.c:1576-1680 | for bindings that name no qualified reference twice: if and only if all can be planned, every bound qualified reference keeps its column node and gets as many qualifiers as it had or the path has parts, the smaller number, the one j places in front of the column being the path part j places from its end; otherwise memory and references are exactly as before; no plan is left and every address has one holder however the call ends |
| QualifierPlans.StatusMeans | src/core/sqlparser_ast_statement.c:952-1141 | with which status the next binding is refused once those before it are planned, by the slots of its reference and the memory left |
| QualifierPlans.PlannableMeans | src/core/sqlparser_ast_statement.c:1576-1633 | what planning asks of each binding, by the slots and texts of its reference |
| QualifierPlans.AllocationsCounted | src/core/sqlparser_ast_statement.c:952-1141 | what one binding allocates: a node or a name for each new qualifier, the array, a spelling where the column loses its place, and the array of plans for the first of its sort |
| QualifierPlans.AppliedIsBalanced | src/core/sqlparser_ast_statement.c:1143-1192 | applying finished plans keeps one holder for every address if and only if no reference is planned twice |
| RelationRename.Replace | src/core/sqlparser_ast_statement.c:1404-1680 | from the inputs, which exit the combined call takes, with which status, and what the paths of both relations, log and references are there; after success the relation's new name stands directly in front of every bound qualified column; a name moved beside old qualifiers if and only if the first relation was accepted, the second one or the planning failed, and the path moves a name |
| RelationRename.RewritableMeans | src/core/sqlparser_ast_statement.c:1507-1633 | which references can take a path: all of them if they are bare targets, and otherwise well-formed ones with their spellings found, a path with a part that can be written out, and memory for all |
| RelationRename.AcceptsMeans | src/core/sqlparser_ast_statement.c:1404-1506 | the first relation takes the path if it would alone and the values could be copied, which is not asked if nothing else is to be renamed |
| RelationRename.BothMean | src/core/sqlparser_ast_statement.c:1404-1575 | the second relation takes the path from where the first one leads, or the first one alone has it; which slots then have which values |
| RelationRename.PathBesideOldQualifiers | src/core/sqlparser_ast_statement.c:1507-1680 | a concrete relation with one qualified column: with three allocations the rename succeeds, with fewer the relation has its new name and the column its old qualifier |
| QualifierRuns.Forget | src/core/sqlparser_ast_statement.c:756-772 | takes every record of a slot out of the log, from the last to the first |
| QualifierRuns.Requalify | src/core/sqlparser_ast_statement.c:1143-1402 | the records of the old qualifiers leave the log and, up to the first spelling that cannot be had, those of the new ones enter it |
| QualifierRuns.RewriteKeeps | src/core/sqlparser_ast_statement.c:1143-1402 | a rewrite of qualifiers keeps the log the difference from the names the slots started with, and the groups of relations whole, however many spellings could be installed |
| QualifierRuns.OnlyCommitPoisons | src/core/sqlparser_ast_statement.c:1634-1680 | a combined call poisons the handle exactly if it comes to the commit and the commit fails |
| QualifierRuns.MixedRunKeeps | src/core/sqlparser_ast_statement.c:1404-1680 | the same over any run of renames, relation paths and combined calls, those included that stop half way, until a commit fails |
| QualifierPlans.HeldIsAllocated | src/core/sqlparser_ast_statement.c:894-950 | everything a plan holds is allocated and held once, so nothing is freed twice |
| QualifierPlans.NodesAreUnshared | src/core/sqlparser_ast_statement.c:1143-1192 | in a balanced store no node stands in two slots |
| TargetEdits.TargetList.SetTarget | src/core/sqlparser_ast_select.c:783-893 | replaces one target by the parsed ones in place and commits, or leaves list and handle on every refusal; a failing commit keeps the new list and poisons the handle |
| TargetEdits.TargetList.InsertTarget | src/core/sqlparser_ast_select.c:921-984 | inserts one target at an index clamped to the end and commits, or leaves list and handle |
| TargetEdits.TargetList.DeleteTarget | src/core/sqlparser_ast_select.c:1012-1051 | shifts the later targets down and commits, and refuses to delete the last one |
| TargetEdits.TargetList.Replace | src/core/sqlparser_ast_select.c:691-716 | installs another list and commits; an empty list is refused |
| TargetEdits.ReplacementMeans | src/core/sqlparser_ast_select.c:783-893 | when replacing a target succeeds, with which refusal it fails, and what then stands at every place |
| TargetEdits.InsertionMeans | src/core/sqlparser_ast_select.c:921-984 | the same for an insertion |
| TargetEdits.DeletionMeans | src/core/sqlparser_ast_select.c:1012-1051 | the same for a deletion |
| TargetEdits.OrdinalsAfterRun | src/core/sqlparser_ast_select.c:783-1051 | across any run of edits of one SELECT its list stays nonempty, ordinals up to its own keep resolving, later ones shift by the nested SELECTs gained or lost |
| TargetOrdinals.EditIsOneCut | src/core/sqlparser_ast.c:1379-1389 | changing one target list replaces one stretch of the preorder, behind the SELECT and everything scanned before the list |
| TargetOrdinals.OrdinalsAfterEdit | src/core/sqlparser_ast_select.c:83-190 | what every ordinal resolves to after the edit of one target list |
| TargetOrdinals.EditAgain | src/core/sqlparser_ast_select.c:691-716 | a later target list of the same SELECT overwrites an earlier one |
| TreeEdits.TargetsAreSet | src/core/sqlparser_ast_select.c:691-716 | in the tree with the new list nothing differs but the target list of the SELECT with that identity |
| PairedInto.ResultList.Insert | src/core/sqlparser_ast_dml_result.c:770-989 | for receivers in the list and for named receiver columns alike, installs the pair exactly when metadata, size, parser, memory and dialect agree; otherwise the list is untouched |
| PairedInto.NamedPairIsInserted | src/core/sqlparser_ast_dml_result.c:905-989 | a target and its named column are inserted as a pair at the same index, and nothing else moves |
| PairedInto.PairIsInserted | src/core/sqlparser_ast_dml_result.c:802-903 | the list stays prefix, targets, receivers, suffix with equal halves, and the zipped pairs get the new pair at its index |
| PairedInto.PairPlaces | src/core/sqlparser_ast_dml_result.c:802-903 | place by place, what the list with the pair holds, and the counts and offsets that go with it |
| PairedInto.NamedPlaces | src/core/sqlparser_ast_dml_result.c:905-989 | the same for a target with a named column |
| PairedInto.RunKeepsPairing | src/core/sqlparser_ast_dml_result.c:802-903 | after any run of insertions the pairs are those of the same run on pairs |
| Scanner.SkipTrivia | src/core/sqlparser_ast.c:2803-2848 | skips spaces, line comments and nested block comments as the reference does |
| Scanner.IdentifierToken | src/core/sqlparser_ast.c:3051-3129 | ends each kind of identifier token where the reference does |
| ScannerLaws.BlockIsTrivia | src/core/sqlparser_ast.c:2803-2848 | a block comment is skipped up to its own end, whatever comments it holds |
| ScannerLaws.LineIsTrivia | src/core/sqlparser_ast.c:2803-2848 | a line comment is skipped up to the end of its line |
| ScannerLaws.TriviaStops | src/core/sqlparser_ast.c:2803-2848 | nothing but spaces and comments is skipped |
| ScannerLaws.WordTokenEnds | src/core/sqlparser_ast.c:3051-3129 | a word is a token up to the first byte that does not continue it |
| ScannerLaws.QuotedTokenEnds | src/core/sqlparser_ast.c:3051-3129 | a quoted token ends behind the quoted value that stands there |
| ScannerLaws.UnicodeTokenEnds | src/core/sqlparser_ast.c:2956-3129 | a U& token ends behind the quoted text, or behind its UESCAPE clause |
| Quoting.RenderQuoted | src/core/sqlparser_ast_identifier.c:35-85 | writes the quotes around the value with every escaped byte doubled |
| Quoting.QuotedTokenMatches | src/core/sqlparser_ast.c:61-104 | accepts a value exactly when its quoted rendering stands at the position and no further quote follows |
| Quoting.BodyIsDoubled | src/core/sqlparser_ast.c:3098-3127 | a quoted body up to its closing quote is always the doubling of its value |
| Quoting.DoubledIsBody | src/core/sqlparser_ast.c:3098-3127 | where a doubling stands before a single quote, it is read back as its value |
| Quoting.IdentifierMatches | src/core/sqlparser_ast.c:3131-3310 | accepts exactly the one value the token decodes to, U& escapes, surrogate pairs and UESCAPE included |
| ScannerLaws.DecodedMeans | src/core/sqlparser_ast.c:3131-3310 | which value each kind of identifier token stands for |
| UnicodeText.Utf8Means | src/core/sqlparser_ast.c:2956-3310 | the bytes written for a code point are its UTF-8 encoding, range by range; above 10FFFF there is none |
| UnicodeText.BodyMeans | src/core/sqlparser_ast.c:3131-3310 | a U& body has a value exactly if plain bytes, doubled quotes and escapes, code points and surrogate pairs fill it, and it is the value they say |
| UnicodeText.ClauseMeans | src/core/sqlparser_ast.c:2956-3050 | where a UESCAPE clause stands the token goes on to its end with its escape byte, and elsewhere the escape is the backslash |
| PathText.RenderDefault | src/core/sqlparser_deparse_spelling.c:3512-3590 | a bare word stays bare unless it is a keyword, everything else nonempty is quoted |
| PathText.PartIsBare | src/core/sqlparser_deparse_spelling.c:3512-3590 | bare are exactly the words of small letters, digits and underscores that start with no digit and are no keyword, but a lone SYSDATE in the dialect that quotes it |
| PathText.RenderPath | src/core/sqlparser_ast_identifier.c:87-225 | joins the spelled parts with dots and refuses exactly empty paths and paths with an empty part |
| PathText.ReadNames | src/core/sqlparser_ast.c:3705-3763 | accepts exactly when the dotted names stand at the position, and stops behind the last |
| PathText.NamesMean | src/core/sqlparser_ast.c:3705-3763 | names are read up to an end exactly if they stand there, one behind the other, with dots between them |
| PathText.PathReadsBack | src/core/sqlparser_ast_identifier.c:87-225 | a rendered path is read back into the same parts up to its end |
| PathText.NamesAreUnique | src/core/sqlparser_ast.c:3705-3763 | at most one list of names is read from a position to the end of a text |
| PathText.PathsAreInjective | src/core/sqlparser_ast_identifier.c:87-225 | different paths have different texts, in the double-quote and the backtick dialects alike and whatever the keywords are |
| LiteralWalk.Walk | src/core/sqlparser_ast_literal.c:178-430 | the literal walk runs the search over the enumeration of WHERE literals with their column contexts |
| LiteralWalk.FindLiteral | src/core/sqlparser_ast_literal.c:432-512 | returns the k-th literal with constant, Node and context exactly below the count |
| LiteralWalk.CountLiterals | src/core/sqlparser_ast_literal.c:564-612 | counts the literals, zero without a WHERE clause |
| LiteralMeaning.ConstantMeans | src/core/sqlparser_ast_literal.c:24-55 | which value a constant has by its selected alternative, and which constants are literals |
| LiteralMeaning.ComparisonMeans | src/core/sqlparser_ast_literal.c:196-262 | the operands of an A_Expr come left before right, each with the operator and the column the other one refers to |
| LiteralMeaning.ColumnMeans | src/core/sqlparser_ast.c:2313-2402 | the column is the last of the first four names of a column reference and the table the one in front of it, seen through casts, collations and indirections only |
| LiteralMeaning.OperatorMeans | src/core/sqlparser_ast.c:2404-2496 | which operator is reported for every kind of A_Expr, negated forms told by the operator's name |
| LiteralMeaning.ArgumentMeans | src/core/sqlparser_ast_literal.c:262-430 | casts and tests have the literals of their argument |
| LiteralMeaning.IndirectionMeans | src/core/sqlparser_ast_literal.c:262-430 | an indirection has those of its argument and then of its subscripts |
| LiteralMeaning.ListMeans | src/core/sqlparser_ast_literal.c:262-430 | lists, Boolean expressions, arrays, rows and calls have those of their elements in order |
| LiteralMeaning.SubLinkMeans | src/core/sqlparser_ast_literal.c:262-430 | a sublink has those of its test expression and then of its subselect |
| LiteralMeaning.QueryMeans | src/core/sqlparser_ast_literal.c:133-177 | a subquery has those of its WHERE clause and then of its left and its right operand |
| LiteralMeaning.LeafMeans | src/core/sqlparser_ast_literal.c:57-97 | a literal is reported with its Node, and every other message has none |
| LiteralMeaning.WhereClauseMeans | src/core/sqlparser_ast.c:420-462 | where a statement has the WHERE clause whose literals are numbered |
| LiteralLaws.ConstantNode.SetLiteral | src/core/sqlparser_ast.c:2618-2766 | writes the built constant, booleans normalised, or reports the exact refusal and leaves the constant; no payload object is lost |
| LiteralLaws.EditedLiterals | src/core/sqlparser_ast_literal.c:57-430 | writing one literal changes its constant only, and taking parentheses away changes nothing, in the whole WHERE enumeration |
| LiteralLaws.WriteThenRead | src/core/sqlparser_ast_literal.c:514-562 | literal k reads as written, the others as before in the same context, and the count stays |
| LiteralLaws.WriteBack | src/core/sqlparser_ast_literal.c:514-562 | writing the value that is there changes nothing |
| LiteralLaws.ParenthesesAreTransparent | src/core/sqlparser_ast_literal.c:300-317 | parentheses change no WHERE-literal ordinal and no column context |
| LiteralLaws.NoneAreLeft | src/core/sqlparser_ast_literal.c:300-317 | the expression without parentheses has none |
| TreeEdits.NoneAreLeft | src/core/sqlparser_ast.c:1948-1963 | the tree without parentheses has none, where no Node wraps a Node |
| TreeEdits.NothingToStrip | src/core/sqlparser_ast.c:1948-1963 | a tree that has none stays as it is |
| LiteralEdits.EditedLiterals | src/core/sqlparser_ast_literal.c:45-55 | in the message enumeration of a whole statement writing one literal changes that literal only: no count, no order, no other literal |
| LiteralEdits.WriteThenRead | src/core/sqlparser_ast_literal.c:514-562 | statement-wide literal k reads as written, every other one as before, and the count stays |
| LiteralEdits.FilledReads | src/core/sqlparser_ast.c:2618-2766 | the fields the setter leaves are read back as the constant written |
| TreeEdits.LiteralIsPut | src/core/sqlparser_ast.c:2618-2766 | in the tree with the literal written nothing differs but the fields of the constant with that identity |
| LiteralLens.ViewCommutes | src/core/sqlparser_ast_literal.c:178-430 | editing a literal in the tree and then looking at an expression is looking first and editing what is seen, operators as reported by kind and name included |
| LiteralLens.OneEdit | src/core/sqlparser_ast_literal.c:514-562 | one and the same write changes one literal in the statement-wide numbering and one in the numbering of any WHERE clause below the statement, and neither gains, loses or moves a literal |
| LiteralLens.WhereLiteralsEdited | src/core/sqlparser_ast.c:436-460 | the same for the WHERE clause whose literals a statement numbers, in SELECT, UPDATE, DELETE and INSERT ... SELECT |
| LiteralView.LiteralUnder | src/core/sqlparser_ast_literal.c:178-430 | every WHERE literal of the tree is a supported constant below the clause, in the Node the walker reports |
| StatementLiterals.ReportedNode | src/core/sqlparser_ast_literal.c:498-512 | the Node the WHERE walker reports is one of the statement's node slots, and under its ordinal stands the literal's constant |
| StatementLiterals.FindLiteralNode | src/core/sqlparser_ast_literal.c:432-512 | finds the literal by the WHERE walker or by message ordinal and then its Node ordinal; for a WHERE literal the search for its constant leads to the Node the walker reported |
| CloneTree.Heap.CloneItem | src/core/sqlparser_ast.c:5544-5610 | copies a value, keeping NULL and default pointers, exactly if it is well formed and its buffers can be had; a copy that fails owns nothing |
| CloneTree.Heap.CloneValue | src/core/sqlparser_ast.c:5638-5702 | copies a field, an empty repeated one without an array; what a failed copy holds it owns once |
| CloneTree.Heap.CloneFields | src/core/sqlparser_ast.c:5630-5702 | for a Node looking at the selected alternative only loses nothing |
| CloneTree.Heap.Clone | src/core/sqlparser_ast.c:5612-5736 | succeeds exactly for well-formed messages whose buffers can all be had, with a copy equal in numbers, tags, lengths, text and byte contents, flags, cases and lists, and one allocation for each buffer; the copy owns exactly the buffers that are new, each once; otherwise the heap is as before, whichever allocation failed |
| CloneTree.Heap.FreeMessage | src/core/sqlparser_ast.c:5733-5736 | the destructor frees exactly the buffers a complete or partial message owns, each once |
| CloneTree.CloneNode | src/core/sqlparser_ast.c:5738-5777 | refuses NULL and empty Nodes, and reports every other failure, malformed input too, as a lack of memory |
| CloneTree.CopiesAlike | src/core/sqlparser_ast.c:5612-5736 | a copy can be copied exactly if its original can, at the same number of allocations |
| CloneTree.OwnsMean | src/core/sqlparser_ast.c:5612-5736 | a message owns exactly the addresses where it and the messages below it stand and have their texts, bytes and arrays |
| CloneTree.CopiesMean | src/core/sqlparser_ast.c:5612-5736 | a message can be copied, given the memory, exactly if it and every message below it is free of the flaws that are named field by field |

## Left out

- The vendored parser and deparser, protobuf packing and fragment rendering: parsing a fragment is a parameter holding nodes or a refusal.
- Dialect preprocessing and dialect state: outcomes are parameters; the paired-count adjustment is taken to add one to both counts and to the receiver offset.
- Handle commit: it succeeds or poisons the handle; what it writes is not modelled.
- The identifier policy tables and the DefElem rules: a `Schema` value holds them; `NameParentheses` assumes that they read scalars, field names and the strings of function names only.
- Rebase callback: a pure predicate of the constant and the TypeName ancestry; its contract forbids changing the tree.
- Descriptor magic, descriptor counts and unknown fields: folded into the flag `genuine` of a message.
- NULL edit lists: an empty edit list, which the check refuses alike.
- Broken repeated arrays (NULL with a nonzero count): modelled for the name walkers and the rebase; the clause, message, node and string walkers treat them as empty.
- String search by value pointer, which the program uses to bind log records to a newly parsed tree.
- CloneTree.Heap.Clone: the overflow test on count times element size has no counterpart, lists being unbounded; a cyclic tree, on which the program would not end, cannot be written down.
- Relation spellings borrowed from another slot, source component positions and alias locations of a log record: a borrowed spelling is a parameter, the other two are not recorded.
- ChangeLog.PreparedEntries: a record's source presence, component position and alias location are not kept.
- Renames.Handle.Prepare: a record's source presence, component position and alias location are not kept.
- Renames.Handle.Place: the renumbering of source components is not kept.
- Renames.Handle.ReplaceRelation: the search for a borrowed spelling is a parameter.
- Renames.Handle.Settle: a NULL string, which no generated message holds, reads as the empty string; the program treats it as not restored.
- RenameRuns.RunKeeps: combined calls are outside these runs; `QualifierRuns.MixedRunKeeps` has them.
- QualifierPlans.Store.Apply: the log records removed with the old qualifiers are not part of the store; `QualifierRuns` takes them out.
- QualifierPlans.Store.Rewrite: assumes that no qualified reference is bound twice. The walk that collects the bindings, which is to visit each expression once, is not modelled; `QualifierPlans.AppliedIsBalanced` says what depends on it.
- RelationRename.Replace: the dialect's own state is not modelled; the records that leave and enter the log with the qualifiers are in `QualifierRuns`.
- QualifierRuns.MixedRunKeeps: which slots go and come with a rewrite is a parameter, not read off the references; the second search that rebinds records is not modelled.
- QualifierPlans.Store.PrepareColumn: a string node, an array and a string count as one allocation each.
- Quoting.RenderQuoted: allocation failure and the size limit are not outcomes.
- PathText.RenderDefault: allocation failure is not an outcome.
- PathText.RenderPath: allocation failure and size limits are not outcomes.
- PathText.ReadNames: the recorded component styles and the origin checks are not modelled.
- Renames.Handle.SetName: style markers on generated locations are not modelled; staging an alias spelling is a parameter.
- LiteralWalk.FindLiteral: the reported parent message is left out; the walker knows it only below a type cast.
- PathText.PathReadsBack: covers the double-quote dialects; backtick rendering has its contract in `PathText.RenderPath` but no reader here.
- Origins of generated text during scanning, and error-message text.
- Character classes are those of the C locale.
