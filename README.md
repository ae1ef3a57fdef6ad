# UpdateWordTemplate in Dafny

A model of the Kotlin class `UpdateWordTemplate`, a docx4j template filler, with
proofs about it. The filler:
- finds the table of a Word document whose Text nodes hold a reference placeholder;
- for each data record, fills every row of that table, replacing each Text whose value
  equals a placeholder with the record's entry for it;
- appends a table to the body when no table holds the placeholder.

## What is modelled

- **The document** (`document.dfy`, module `Document`). The docx4j object graph is
  reduced to what the class observes:
  - the concrete class of a node;
  - the ordered `content` of a `ContentAccessor`;
  - one layer of `JAXBElement` wrapping;
  - the nullable value of an `org.docx4j.wml.Text`.

  Objects are identified by a `NodeId`, and the heap is a map from ids to nodes. Two
  references to one object are the same id twice, so a table that is appended to the
  body again is really the same object.

  The class `Package` (the `WordprocessingMLPackage`) owns that heap and an allocator.
  Its methods are:
  - `NewTbl` for `new Tbl()`;
  - `AddObject` for `mainDocumentPart.addObject`;
  - `SetText` for `textElement.value = …`.
- **Tree search** (`search.dfy`, module `TreeSearch`). `Collect` is the ghost
  function that describes what `getAllElementsFromObject` finds:
  - the nodes it appends, in order;
  - unwrapping once;
  - exact class equality;
  - no descent below a match;
  - children in content order.

  `Reaches` is an independent reference definition, and `CollectIffReaches` proves the
  two agree.
- **Placeholder substitution** (`substitution.dfy`, module `Substitution`).
  - `SubstValue` is what one Text value becomes after the loop over placeholders. Each
    test reads the current value, so replacements chain.
  - `SetTexts` is the loop over the collected Text nodes.
  - `ReplaceIn` is `replacePlaceholder`.
- **Table locator** (`locator.dfy`, module `TableLocator`). `Locate` is the index of the
  first table holding a non-null Text equal to the token, or `None`.
- **Orchestrator** (`replacement.dfy`, module `TableReplacement`).
  - `Step` is one record of `replaceTable`: place the table, then fill every row with the
    one-record list.
  - `RunAll` is the whole loop.
  - `Start` is the state after lines 94-95.

  The state carried between records is `LoopState`: heap, allocator, the local
  `tableToAdd` and the field `result`.
- **The class itself** (`update_word_template.dfy`, module `WordTemplate`). Class
  `UpdateWordTemplate` has the field `result` and one method per Kotlin function:
  - `GetAllElementsFromObject`, `ReplacePlaceholder`, `GetTemplateTable`, `CreateTable`,
    `ReplaceTable` and `UpdateWordDocument`;
  - methods for the loops nested inside them (`SubstituteAll`, `SubstituteText`,
    `WriteValues`, `FindTemplateTable`, `ScanTable`, `HoldsToken`, `ReplaceRecord`,
    `PlaceTable`, `FillTable`, `FillRows`, `FillRow`).

  The methods update the shared `result` and the package the way the Kotlin code does.
  Each is proved equal to the ghost functions above.

### The shared accumulator

`result` is one list that every search appends to, and that callers reset by
reassignment (lines 57, 105, 129).
- At line 94 it is not reset, so `tables` is whatever `result` held before, followed by
  the tables found from the body. `Tables` models this, and `ReplaceTable` is stated
  for any earlier `result`. `FreshInstanceTables` gives the case of a fresh instance.
- The Kotlin `tables` is the list object `result` referred to at line 94. Every later
  search runs only after `result` has been reassigned (line 129 before the search at
  line 130, line 105 before the one at line 107), so that list is never appended to
  again. Modelling `tables` as a value is therefore exact.
- The search itself only reads the nodes. `GetAllElementsFromObject` takes the heap as
  a value and changes only `result`.

### Behaviour of the code that the model keeps

- The tables collected at line 94 come after any stale `result` contents, because
  `result` is not reset before that search.
- When no table holds the token, the body gains `tableToAdd` (line 101).
  - `tableToAdd` is the empty table of line 95 only until some record has located a
    table (line 103). After that, the most recently located table, already filled, is
    appended to the body again. `ReappendAfterMatch` proves this for the record right
    after a match.
  - Before any table has been located, the body gains the empty table and nothing else
    changes. This is `MissingTableRecord`.
- Every call of `getTemplateTable` allocates a table (line 126), even when a table is
  found. The model's allocator advances once per record.
- With no records the loop never runs. Only the table of line 95 is allocated, and
  `result` ends as its stale contents followed by the body's tables. The stale
  entries are never cast to tables in that case.

## Model

| member | source | states |
|---|---|---|
| Document.ClassOf | src/main/kotlin/jb/kotlin/docx4j/UpdateWordTemplate.kt:38 | `javaClass`: the exact runtime class of a node, so a subclass never matches |
| Document.Unwrap | src/main/kotlin/jb/kotlin/docx4j/UpdateWordTemplate.kt:32-36 | a JAXBElement is replaced by the object it holds, once; any other object is kept |
| Document.Alloc | src/main/kotlin/jb/kotlin/docx4j/UpdateWordTemplate.kt:126 | `Tbl()` adds one node, an empty table, and keeps the heap well formed with every other node unchanged |
| Document.Append | src/main/kotlin/jb/kotlin/docx4j/UpdateWordTemplate.kt:145 | `addObject` appends the object to the body's content list, keeps the heap well formed and changes no other node |
| Document.TextWriteSameShape | src/main/kotlin/jb/kotlin/docx4j/UpdateWordTemplate.kt:65 | writing a Text's value changes no class and no reference |
| Document.Package.NewTbl | src/main/kotlin/jb/kotlin/docx4j/UpdateWordTemplate.kt:95 | a fresh id for the new table, the heap as Alloc gives it, the allocator advanced |
| Document.Package.AddObject | src/main/kotlin/jb/kotlin/docx4j/UpdateWordTemplate.kt:145 | the heap becomes Append of the old heap; the allocator is unchanged |
| Document.Package.SetText | src/main/kotlin/jb/kotlin/docx4j/UpdateWordTemplate.kt:65 | exactly the one Text gets the new value and the heap stays well formed |
| TreeSearch.Collect | src/main/kotlin/jb/kotlin/docx4j/UpdateWordTemplate.kt:30-48 | every node the search appends is in the document, has exactly the target class, and lies at or below the start |
| TreeSearch.CollectChildren | src/main/kotlin/jb/kotlin/docx4j/UpdateWordTemplate.kt:41-45 | the loop over the first `n` children of a container: every node it finds has the target class and lies strictly below the container |
| TreeSearch.Reaches | src/main/kotlin/jb/kotlin/docx4j/UpdateWordTemplate.kt:32-46 | reference definition of what the search finds: the unwrapped node if it has the target class, otherwise what is found from a child of a container |
| TreeSearch.CollectIffReaches | src/main/kotlin/jb/kotlin/docx4j/UpdateWordTemplate.kt:32-46 | a node is among those collected exactly when it is found by the reference definition: matched after unwrapping, or found from a child of a non-matching container |
| TreeSearch.NoDescentBelowMatch | src/main/kotlin/jb/kotlin/docx4j/UpdateWordTemplate.kt:38-40 | a matching node (after unwrapping) yields itself alone, so no node nested inside it is found through it |
| TreeSearch.ChildrenInOrder | src/main/kotlin/jb/kotlin/docx4j/UpdateWordTemplate.kt:41-45 | the results of earlier children come first, then those of child `i`, and together they are a prefix of the container's result |
| TreeSearch.ContainerSearch | src/main/kotlin/jb/kotlin/docx4j/UpdateWordTemplate.kt:41-45 | a non-matching container yields the concatenation of its children's results |
| TreeSearch.NothingFromOtherLeaves | src/main/kotlin/jb/kotlin/docx4j/UpdateWordTemplate.kt:38-47 | a node that, after unwrapping, neither matches nor is a container adds nothing |
| TreeSearch.CollectFrame | src/main/kotlin/jb/kotlin/docx4j/UpdateWordTemplate.kt:30-48 | the search depends only on the classes and references of the nodes at and above its start, not on Text values or other nodes |
| Substitution.Lookup | src/main/kotlin/jb/kotlin/docx4j/UpdateWordTemplate.kt:65 | `values[placeholder]`: the record's entry, or null when the key is missing |
| Substitution.WriteRecords | src/main/kotlin/jb/kotlin/docx4j/UpdateWordTemplate.kt:64-66 | the value after every record in turn has written its entry: the last record's entry, or the value unchanged with no records |
| Substitution.SubstValue | src/main/kotlin/jb/kotlin/docx4j/UpdateWordTemplate.kt:62-67 | the value of one Text after the loop over placeholders, each compared with the value as it is at that point |
| Substitution.SubstValueOrigin | src/main/kotlin/jb/kotlin/docx4j/UpdateWordTemplate.kt:62-67 | a Text ends either with its own value or with the last record's entry for one of the placeholders, and never with anything else |
| Substitution.SubstSplit | src/main/kotlin/jb/kotlin/docx4j/UpdateWordTemplate.kt:62-67 | substituting with placeholders `a + b` is substituting with `a`, then with `b` |
| Substitution.SubstUnmatched | src/main/kotlin/jb/kotlin/docx4j/UpdateWordTemplate.kt:63 | a value equal to no placeholder is left as it is |
| Substitution.SubstNoRecords | src/main/kotlin/jb/kotlin/docx4j/UpdateWordTemplate.kt:64-66 | with an empty record list no value changes |
| Substitution.SubstFirstMatch | src/main/kotlin/jb/kotlin/docx4j/UpdateWordTemplate.kt:62-67 | at the first placeholder the value equals, it becomes the last record's entry, and the later placeholders are compared with that entry |
| Substitution.SubstLastRecordWins | src/main/kotlin/jb/kotlin/docx4j/UpdateWordTemplate.kt:63-66 | a matching value ends as the last record's entry (null when the key is missing) unless that entry equals a later placeholder |
| Substitution.ChainedReplacement | src/main/kotlin/jb/kotlin/docx4j/UpdateWordTemplate.kt:62-66 | a replacement equal to a later placeholder is replaced again in the same call; in the other order it is not |
| Substitution.LastWriteWins | src/main/kotlin/jb/kotlin/docx4j/UpdateWordTemplate.kt:64-66 | with records `{X: A}` then `{X: B}` in one call the value is `B` |
| Substitution.CollectedTexts | src/main/kotlin/jb/kotlin/docx4j/UpdateWordTemplate.kt:58-61 | every node found by a search for Text is a Text, so the cast at line 61 holds |
| Substitution.SetTexts | src/main/kotlin/jb/kotlin/docx4j/UpdateWordTemplate.kt:60-69 | the loop over the Text nodes keeps every class and reference and changes no node outside the list |
| Substitution.SetTextsValue | src/main/kotlin/jb/kotlin/docx4j/UpdateWordTemplate.kt:60-69 | a Text listed `n` times has received `n` passes of substitution of its value |
| Substitution.ReplaceIn | src/main/kotlin/jb/kotlin/docx4j/UpdateWordTemplate.kt:56-70 | the document after replacePlaceholder: substitution applied in turn to every Text the search finds under `obj` |
| Substitution.ReplaceInFrame | src/main/kotlin/jb/kotlin/docx4j/UpdateWordTemplate.kt:56-70 | replacePlaceholder keeps the document's shape, and every node that is not a Text found under `obj` is unchanged |
| Substitution.ReplaceInValue | src/main/kotlin/jb/kotlin/docx4j/UpdateWordTemplate.kt:56-70 | a Text under `obj` receives one substitution pass per time it is found; found once, it holds the substitution of its value |
| TableLocator.HasToken | src/main/kotlin/jb/kotlin/docx4j/UpdateWordTemplate.kt:130-139 | a table holds the token when some Text found under it has a non-null value equal to it |
| TableLocator.Locate | src/main/kotlin/jb/kotlin/docx4j/UpdateWordTemplate.kt:128-141 | the located table holds the token and no earlier table does; nothing is located exactly when no table holds it |
| TableLocator.LocatedOrLast | src/main/kotlin/jb/kotlin/docx4j/UpdateWordTemplate.kt:128-141 | the index of the table whose Text nodes `result` holds after the loop: the located table, or the last table when none holds the token |
| TableLocator.LocatedOr | src/main/kotlin/jb/kotlin/docx4j/UpdateWordTemplate.kt:125-141 | the table getTemplateTable returns: the located table, or the fallback when no table holds the token |
| TableLocator.LocateFirst | src/main/kotlin/jb/kotlin/docx4j/UpdateWordTemplate.kt:128-137 | the early return at the first table holding the token is the table located |
| TableLocator.TokenTableNotEmpty | src/main/kotlin/jb/kotlin/docx4j/UpdateWordTemplate.kt:100 | a table holding the token has non-empty content |
| TableLocator.LocateAfterAlloc | src/main/kotlin/jb/kotlin/docx4j/UpdateWordTemplate.kt:126 | allocating the sentinel table changes no answer of the locator |
| TableReplacement.RowTexts | src/main/kotlin/jb/kotlin/docx4j/UpdateWordTemplate.kt:111-113 | the Text nodes the search of each row's replacePlaceholder finds, row after row |
| TableReplacement.ReplaceRows | src/main/kotlin/jb/kotlin/docx4j/UpdateWordTemplate.kt:111-113 | filling the rows keeps every node, class and reference, and the heap well formed |
| TableReplacement.ReplaceRowsValue | src/main/kotlin/jb/kotlin/docx4j/UpdateWordTemplate.kt:111-113 | after the rows are filled, a Text found `c` times among the rows' Text nodes holds `c` substitution passes of its value |
| TableReplacement.ReplaceRowsFrame | src/main/kotlin/jb/kotlin/docx4j/UpdateWordTemplate.kt:111-113 | filling the rows changes only Text nodes found under one of the rows |
| TableReplacement.Chosen | src/main/kotlin/jb/kotlin/docx4j/UpdateWordTemplate.kt:99-104 | the table whose rows a record fills is always a table: the located one, or `tableToAdd` when none is found |
| TableReplacement.Placed | src/main/kotlin/jb/kotlin/docx4j/UpdateWordTemplate.kt:99-104 | after placing the table the heap has one more node, only the body may have changed, and the chosen table is a table |
| TableReplacement.PlacedByBranch | src/main/kotlin/jb/kotlin/docx4j/UpdateWordTemplate.kt:99-104 | the content test of line 100 picks the branch: empty means createTable appends `tableToAdd` and that table is filled; otherwise the located table is filled and nothing is appended |
| TableReplacement.LocatedEmptyIffNotFound | src/main/kotlin/jb/kotlin/docx4j/UpdateWordTemplate.kt:99-100 | the table getTemplateTable returns is empty exactly when no table holds the token |
| TableReplacement.Step | src/main/kotlin/jb/kotlin/docx4j/UpdateWordTemplate.kt:97-114 | one record keeps the heap well formed, the allocator above every node, `tableToAdd` a table and every collected table a table |
| TableReplacement.StepOnPlaced | src/main/kotlin/jb/kotlin/docx4j/UpdateWordTemplate.kt:105-113 | reading the rows and the last row's Text nodes after the table is placed gives the same record step |
| TableReplacement.RunAll | src/main/kotlin/jb/kotlin/docx4j/UpdateWordTemplate.kt:96-115 | the loop over the records keeps the same invariant |
| TableReplacement.Start | src/main/kotlin/jb/kotlin/docx4j/UpdateWordTemplate.kt:94-95 | after collecting the tables and allocating `tableToAdd`, `result` is the stale entries followed by the body's tables and `tableToAdd` is a fresh empty table; the loop invariant holds when the stale entries are tables |
| TableReplacement.Tables | src/main/kotlin/jb/kotlin/docx4j/UpdateWordTemplate.kt:94 | `tables` begins with the stale `result` entries, and every entry after them is a table |
| TableReplacement.ReplaceTableResult | src/main/kotlin/jb/kotlin/docx4j/UpdateWordTemplate.kt:89-117 | over records the loop invariant holds at the end; with no records only the table of line 95 is allocated and `result` is the stale entries followed by the body's tables |
| TableReplacement.FreshInstanceTables | src/main/kotlin/jb/kotlin/docx4j/UpdateWordTemplate.kt:94 | with an empty `result`, `tables` is exactly the tables found from the body, not inside another table, in document order |
| TableReplacement.StepBody | src/main/kotlin/jb/kotlin/docx4j/UpdateWordTemplate.kt:99-104 | the body gains `tableToAdd` exactly when no table holds the token and is otherwise unchanged; `tableToAdd` becomes the located table when there is one |
| TableReplacement.StepFillsRowTexts | src/main/kotlin/jb/kotlin/docx4j/UpdateWordTemplate.kt:99-114 | after one record, a Text found once among the Text nodes of the chosen table's rows holds the substitution of its value with that record; found `c` times, `c` passes |
| TableReplacement.StepTouchesOnlyRowTexts | src/main/kotlin/jb/kotlin/docx4j/UpdateWordTemplate.kt:97-114 | a record allocates one node and changes, besides the body, only Text nodes found under the rows of the chosen table |
| TableReplacement.MissingTableRecord | src/main/kotlin/jb/kotlin/docx4j/UpdateWordTemplate.kt:99-113 | with no table holding the token and an empty `tableToAdd`, the record adds that empty table to the body, substitutes nothing, and leaves `result` empty |
| TableReplacement.TableToAddProvenance | src/main/kotlin/jb/kotlin/docx4j/UpdateWordTemplate.kt:95-104 | `tableToAdd` is always the table of line 95 or one of `tables` |
| TableReplacement.ReappendAfterMatch | src/main/kotlin/jb/kotlin/docx4j/UpdateWordTemplate.kt:101-103 | when a record has used a located table and, for the next record, no table holds the token, the next record appends that same filled table again |
| WordTemplate.UpdateWordTemplate.constructor | src/main/kotlin/jb/kotlin/docx4j/UpdateWordTemplate.kt:13 | a new instance starts with an empty `result` |
| WordTemplate.UpdateWordTemplate.GetAllElementsFromObject | src/main/kotlin/jb/kotlin/docx4j/UpdateWordTemplate.kt:30-48 | `result` becomes its old contents followed by Collect, and that whole list is returned |
| WordTemplate.UpdateWordTemplate.ReplacePlaceholder | src/main/kotlin/jb/kotlin/docx4j/UpdateWordTemplate.kt:56-70 | `result` holds the Text nodes under `obj`, and the heap becomes ReplaceIn of the old heap |
| WordTemplate.UpdateWordTemplate.SubstituteAll | src/main/kotlin/jb/kotlin/docx4j/UpdateWordTemplate.kt:60-69 | the heap becomes SetTexts of the old heap over the collected Text nodes |
| WordTemplate.UpdateWordTemplate.SubstituteText | src/main/kotlin/jb/kotlin/docx4j/UpdateWordTemplate.kt:62-67 | the one Text holds SubstValue of its old value, and nothing else changes |
| WordTemplate.UpdateWordTemplate.WriteValues | src/main/kotlin/jb/kotlin/docx4j/UpdateWordTemplate.kt:64-66 | the one Text holds the last record's entry for the placeholder, or keeps its value with no records |
| WordTemplate.UpdateWordTemplate.GetTemplateTable | src/main/kotlin/jb/kotlin/docx4j/UpdateWordTemplate.kt:125-142 | it allocates one empty table and changes no other node; it returns the located table, or that new table when none holds the token; `result` holds the Text nodes of the last table searched |
| WordTemplate.UpdateWordTemplate.FindTemplateTable | src/main/kotlin/jb/kotlin/docx4j/UpdateWordTemplate.kt:128-141 | the loop returns the first table holding the token, or the fallback after the last one |
| WordTemplate.UpdateWordTemplate.ScanTable | src/main/kotlin/jb/kotlin/docx4j/UpdateWordTemplate.kt:129-139 | one table is searched: `result` holds its Text nodes, and the answer is whether it holds the token |
| WordTemplate.UpdateWordTemplate.HoldsToken | src/main/kotlin/jb/kotlin/docx4j/UpdateWordTemplate.kt:132-139 | true exactly when some listed Text has a non-null value equal to the token |
| WordTemplate.UpdateWordTemplate.CreateTable | src/main/kotlin/jb/kotlin/docx4j/UpdateWordTemplate.kt:144-147 | the table is appended to the body and returned |
| WordTemplate.UpdateWordTemplate.ReplaceTable | src/main/kotlin/jb/kotlin/docx4j/UpdateWordTemplate.kt:89-117 | heap, allocator and `result` end as ReplaceTableResult: Start, then one Step per record in order; with no records, whatever `result` held |
| WordTemplate.UpdateWordTemplate.ReplaceRecord | src/main/kotlin/jb/kotlin/docx4j/UpdateWordTemplate.kt:97-114 | the state after one record is Step of the state before |
| WordTemplate.UpdateWordTemplate.PlaceTable | src/main/kotlin/jb/kotlin/docx4j/UpdateWordTemplate.kt:99-104 | the heap becomes Placed, the table to fill and the new `tableToAdd` are both Chosen, and `result` holds the Text nodes of the last table getTemplateTable scanned (unchanged when `tables` is empty) |
| WordTemplate.UpdateWordTemplate.FillTable | src/main/kotlin/jb/kotlin/docx4j/UpdateWordTemplate.kt:105-113 | the rows of the table are filled, ReplaceRows, and `result` holds the Text nodes of the last row, or is empty without rows |
| WordTemplate.UpdateWordTemplate.FillRows | src/main/kotlin/jb/kotlin/docx4j/UpdateWordTemplate.kt:109-113 | the heap becomes ReplaceRows over the rows, and `result` holds the Text nodes of the last row |
| WordTemplate.UpdateWordTemplate.FillRow | src/main/kotlin/jb/kotlin/docx4j/UpdateWordTemplate.kt:112 | one more row is filled, and `result` holds that row's Text nodes as they were before any row was filled |
| WordTemplate.UpdateWordTemplate.UpdateWordDocument | src/main/kotlin/jb/kotlin/docx4j/UpdateWordTemplate.kt:149-157 | the package ends as replaceTable leaves it |

## Left out

- `getTemplate` (lines 19-21) is left out. Loading a package from a stream is docx4j's ZIP and XML unmarshalling, a foreign library call. The model starts from a `Package` already in memory.
- `writeDocx` (lines 77-80) and the save call in `updateWordDocument` (line 156) are left out. They are file I/O and serialisation.
- The docx4j class hierarchy is reduced to the tags the code compares: Text, w:tbl, w:tr, w:body, other `ContentAccessor` classes, `JAXBElement`, and opaque objects. Other effects of docx4j's `addObject`, such as setting parent links, are not part of this model.
- The document graph is assumed acyclic: every reference goes to a larger id. Shared sub-objects are modelled. On a cyclic graph the Kotlin recursion never returns and ends in a `StackOverflowError`, which is not modelled.
- Null references inside the graph are not modelled: `Wrapper(inner: NodeId)` and a content list of ids cannot hold null. In the Kotlin code, a `JAXBElement` whose value is null (line 35) makes the search throw a NullPointerException. So does a null entry of a content list (line 43).
- WordTemplate.UpdateWordTemplate.ReplaceTable requires, when there are records, that every entry `result` holds before the call is a table. The cast `tables as List<Tbl>` at line 99 is unchecked. The loop of `getTemplateTable` then throws a ClassCastException when it reaches a stale non-table entry, and that exception is not modelled. The requirement also excludes a run whose scans always return at an earlier table before reaching such an entry. A fresh instance meets the requirement, and a call without records needs nothing of `result`.
- WordTemplate.UpdateWordTemplate.ReplaceTable reads the stale `result` entries as ids in the current package's heap. In the Kotlin code they may be objects of another document, left by an earlier call on another package. Such tables would be searched, and could be filled, in that other document. Objects shared across packages are not part of this model.
- WordTemplate.UpdateWordTemplate.ReplaceTable requires a non-empty `placeholders` when there are records. `placeholders[0]` at line 99 otherwise throws, and that exception is not modelled.
- WordTemplate.UpdateWordTemplate.UpdateWordDocument has the same requirements and the same reading of stale entries as ReplaceTable, for the same reasons.
- The missing `InputStream` import at line 19 and the stray closing brace at line 160 are compilation defects. The model is of the class as evidently intended.
- The loops nested inside `replacePlaceholder`, `getTemplateTable` and `replaceTable` are modelled as separate methods called from the enclosing loop. The iteration order and the updates are the same. `GetAllElementsFromObject` takes the heap by value because it only reads it.
