# Nested pipelines, aggregates, `$merge` and geometries of pg_documentdb, modelled in Dafny

pg_documentdb compiles MongoDB aggregation stages to PostgreSQL queries and runs their accumulators as PostgreSQL
aggregates. This project models the parts whose correctness is least obvious from reading them, and proves what they
compute. `dafny verify dfyconfig.toml` checks all of it.

- `GraphLookup.dfy`: the WITH RECURSIVE query of `$graphLookup`, with its CYCLE and DISTINCT ON clauses, is bounded
  reachability with shortest depths. The meaning of CYCLE is that of section 7.8.2.2 of the PostgreSQL documentation: a
  row whose key is already in its path is marked and not extended.
- `QueryTree.dfy`, `LookupScoping.dfy`, `FacetScoping.dfy`: the walks that fill in "levels up" (de Bruijn levels of
  column references and CTE scans), and what they do to nested `$lookup` and `$facet` stages.
- `FacetUnion.dfy`: the UNION ALL tree of `$facet` and the document it computes.
- `LookupPipeline.dfy`: `$lookup` with a pipeline, against the pipeline run on the joined documents. `LookupStages.dfy` and
  `LookupTests.dfy` have the stages, the test each makes to be moved below the join, and when that is right;
  `JoinFilter.dfy`, `Inclusion.dfy` and `SeenWrites.dfy` what the join filter reads at a dotted path, and what it sees of an
  inclusion or a write.
- `LookupUnwind.dfy`: `$lookup` followed by `$unwind` as one join, against the two stages.
- `BinaryHeap.dfy`, `TopN.dfy`, `HeapState.dfy`, `StoredTopN.dfy`: `$maxN` and `$minN`, from the array heap through
  transition, combine and final to the state as bytes, and all of it together.
- `WindowAggregates.dfy`: `$sum`, `$avg` and `$push` over sliding windows, and the size limit of the collecting
  accumulators.
- `MergeDocument.dfy`, `MergeLinks.dfy`, `MergeTable.dfy`, `MergeStage.dfy`, `MergeWrites.dfy`, `MergeJoin.dfy`,
  `MergeRun.dfy`: `$merge`, from one merged document, written from a table with links, to a whole run over a table
  joined on the `on` fields; and what is written and inserted, field by field.
- `Wkb.dfy`, `WkbBuffer.dfy`, `WkbIterator.dfy`: well-known binary geometries (clause 8.2 of OGC 06-103r4, with the SRID
  flag of PostGIS).
- `Documents.dfy`, `Projection.dfy`: nested documents, dotted paths, and what `$set`, `$unset` and `$project` do to them.
- `Bson.dfy`, `Bytes.dfy`, `Options.dfy`, `Picking.dfy`: values by their order; numbers as bytes; optional values; picking
  elements out of a sequence.

Code that updates things in place is modelled by methods, on arrays, objects and loops, each proved against a function or
relation on values; the properties are proved about those. Where only the order of values matters they are compared by a
`rank`, a real number: any countable total preorder is of this form.

## Where the code does not do what one would expect

Each has a lemma with a failing input, or with a whole family of them, and an exact condition for the code to be right.

- Two `$facet` stages in one pipeline share a CTE name, which depends only on the nesting level, and the second walk goes
  by name alone (`FacetScoping.SecondFacetCaptures`, `FacetScoping.FacetIsLexical`).
- A facet whose name has a dot is nested (`FacetUnion.DottedFacetIsNested`, `FacetUnion.EvaluateFacet`).
- A `depthField` with a dot is written as a name and read as a path (`GraphLookup.DottedDepthIsLost`,
  `GraphLookup.RightIffDepthIsReadable`).
- So is an `as` with a dot, when part of a `$lookup` pipeline is left to run after the join
  (`LookupPipeline.DottedAsFindsNothing`, `LookupPipeline.LookupIsRight`).
- An empty document is left out of the array of a `$lookup` (`LookupPipeline.EmptyDocumentIsLost`,
  `LookupPipeline.LookupIsRight`).
- Whether a stage may be moved below the join is tested against the local field, while the join filter reads the foreign
  field; `$unwind` is compared with its dollar sign; and an inclusion drops the foreign field
  (`LookupTests.WhenTheTestIsWrong`, `LookupTests.TestsOfTheSameField`, `LookupTests.UnwindBelowLosesOne`,
  `LookupTests.InclusionBelowLosesAll`, `LookupTests.SetBelowJoinsMore`).
- Two paths that part after a common name do not protect a `$set`: it makes documents of the scalars in an array, and a
  null then joins (`LookupTests.SafeIffPathSafe`).
- The split of a lookup pipeline reports every pipeline as valid and drops stages with an unknown name
  (`LookupPipeline.PlanIsComplete`).
- `$lookup` fused with a preserving `$unwind` differs from the two stages for unmatched documents that have the `as` field,
  or whose `as` path has a missing parent; with or without preserve, it differs for empty matches
  (`LookupUnwind.FusionIsExact`, `LookupUnwind.PreservedFieldDiffers`, `LookupUnwind.EmptyMatchDiffers`).
- Merging into a target with a repeated key links an entry in twice: fields are lost, or the write loop does not end
  (`MergeLinks.RepeatedKeys`, `MergeLinks.WhatIsWritten`). A replace or an insert by `$merge` itself stores a source that
  repeats a key as it is.
- With such a target, schema validation is skipped for a source equal to it although another document is written
  (`MergeStage.RepeatedKeyIsLost`, `MergeStage.HandleWhenMatched`).
- A repeated field of `on` is noticed only if the collection has a usable unique index (`MergeJoin.ValidateOn`).

## What the code relies on

Conditions under which a piece of code is exact, where no caller is known to break them.

- The columns that `$merge` joins on are numbered from 4 in one place and after the document's own number in another: the
  document has to be column 1 (`MergeJoin.TermsReadTheirFields`).
- The size check narrows a 64-bit sum to 32 bits: a document has to be below 2^32 - 104857600 bytes
  (`WindowAggregates.NarrowingIsExact`).
- A geometry traversal that visits no points multiplies a ring's count in 32 bits: a count has to be below 2^27, as it is in
  any buffer that can be written (`WkbIterator.SkipIsWalk`).

## Model

| member | source | states |
|---|---|---|
| `GraphLookup.GraphLookupIsReachability` | pg_documentdb/src/aggregation/bson_aggregation_nested_pipeline.c:3516-3749 | for every collection with unique ids, start filter, connection, restriction and depth limit, if the depth is readable (no dot in its name, or no step allowed): the returned ids ascend, and a document is returned with depth n if and only if n is the length of its shortest walk through admitted documents and within the limit |
| `GraphLookup.ReturnedInNumbers` | pg_documentdb/src/aggregation/bson_aggregation_nested_pipeline.c:3516-3749 | in plain numbers, for a depth name without a dot: with maxDepth below 0x7FFFFFFF a document is returned with a field of that name, or depth, holding n if and only if its shortest walk has length n and n is at most maxDepth; with 0x7FFFFFFF there is no limit |
| `GraphLookup.RightIffDepthIsReadable` | pg_documentdb/src/aggregation/bson_aggregation_nested_pipeline.c:3689-3742 | the stage is right for every collection, start, connection and restriction if and only if the name of the depth has no dot or no step is allowed |
| `GraphLookup.DottedDepthIsLost` | pg_documentdb/src/aggregation/bson_aggregation_nested_pipeline.c:3580-3742 | with a dot in the name no row after the first round shows a depth, and under a limit there is no such row |
| `GraphLookup.RoundDepth` | pg_documentdb/src/aggregation/bson_aggregation_nested_pipeline.c:3580-3742 | if the depth is readable, the depth column of every row of round k holds k, and k is within the limit |
| `GraphLookup.ReturnedAtDistance` | pg_documentdb/src/aggregation/bson_aggregation_nested_pipeline.c:3972-3987 | a row that DISTINCT ON returns is not marked as a cycle, and its depth is the distance of its document, within the limit |
| `GraphLookup.DistanceHasRow` | pg_documentdb/src/aggregation/bson_aggregation_nested_pipeline.c:3616-3749 | a document at distance n within the limit has an unmarked row in round n |
| `GraphLookup.RoundRow` | pg_documentdb/src/aggregation/bson_aggregation_nested_pipeline.c:3835-3845 | every row of round k carries a path of k+1 ids, each that of a document reached in as many steps, distinct except that the last may repeat, which is what the mark says |
| `GraphLookup.RecursionTerminates` | pg_documentdb/src/aggregation/bson_aggregation_nested_pipeline.c:3835-3845 | on every graph, cyclic ones included, a round numbered above the count of documents is empty, and no path has more ids than that count plus one |
| `GraphLookup.MarkedRowsNeverShow` | pg_documentdb/src/aggregation/bson_aggregation_nested_pipeline.c:3972-3987 | leaving the marked rows out before DISTINCT ON returns the same documents with the same depths in the same order |
| `GraphLookup.DistinctOnCovers` | pg_documentdb/src/aggregation/bson_aggregation_nested_pipeline.c:3972-3987 | every row has a row of its id and no greater depth among those kept |
| `QueryTree.LevelsUpWalker.WalkQuery` | pg_documentdb/src/aggregation/bson_aggregation_nested_pipeline.c:4066-4127 | the walk with one shared depth counter computes the levels of `SetQueryLevels` and leaves the counter as it found it |
| `QueryTree.LevelsUpWalker.WalkExpr` | pg_documentdb/src/aggregation/bson_aggregation_nested_pipeline.c:4026-4062 | the same for an expression, through sublinks; siblings see the same counter |
| `QueryTree.LevelsUpWalker.WalkCtes` | pg_documentdb/src/aggregation/bson_aggregation_nested_pipeline.c:4026-4062 | the same for the definitions of a CTE list, one level further down |
| `QueryTree.WalkSetsDepths` | pg_documentdb/src/aggregation/bson_aggregation_nested_pipeline.c:4025-4127 | over every tree, each match at depth d gets level base + d, every other reference keeps its level, and the shape of the tree stays |
| `LookupScoping.EveryReferenceFindsItsLookup` | pg_documentdb/src/aggregation/bson_aggregation_nested_pipeline.c:2641-2768 | for every pipeline of lookups nested to any depth, with and without `let`, no placeholder is left, and the references of the finished tree, each resolved by its level alone, are exactly those listed from the pipeline: each `$match` and stage that uses variables reads the column of the nearest lookup with `let`, each join its extracted column and each post-join pipeline column 2 of its own lookup, and every CTE is scanned where it is bound |
| `LookupScoping.BuildLabels` | pg_documentdb/src/aggregation/bson_aggregation_nested_pipeline.c:2044-2102 | which references there are, in order, with their columns and owners, before any level is filled in |
| `LookupScoping.BuildIsScoped` | pg_documentdb/src/aggregation/bson_aggregation_pipeline.c:1067-1142 | building under any set of pending placeholders of enclosing lookups keeps scoping: each lookup resolves its own placeholders, the others stay pending with their owners |
| `LookupScoping.QueryWalkResolves` | pg_documentdb/src/aggregation/bson_aggregation_nested_pipeline.c:4026-4078 | a walk over a fragment resolves exactly the one pending column, for the query the fragment is put into, and changes the meaning of nothing else |
| `LookupScoping.ResultIsScoped` | pg_documentdb/src/aggregation/bson_aggregation_nested_pipeline.c:2675-2768 | the query around the re-aggregating sublink, after the walks for column 2 and with `let` column 3, is scoped under what was pending outside |
| `LookupScoping.JoinIsScoped` | pg_documentdb/src/aggregation/bson_aggregation_nested_pipeline.c:2575-2640 | the lateral join, with the `let` column evaluated under the enclosing variables, resolves each of its references |
| `LookupScoping.RightIsScoped` | pg_documentdb/src/aggregation/bson_aggregation_nested_pipeline.c:2432-2560 | so does its right query, with the scan of its CTE, the column extracted for the join and the variables of a pulled `$match`, one level up |
| `LookupScoping.OuterWalkCaptures` | pg_documentdb/src/aggregation/bson_aggregation_nested_pipeline.c:2750-2756 | why the walks must run inside-out: an outer walk made while an inner placeholder is open captures it |
| `FacetScoping.FacetIsLexical` | pg_documentdb/src/aggregation/bson_aggregation_nested_pipeline.c:359-390 | a `$facet` leaves every scan of its CTE name at the nearest binder if and only if the query before it has no scan of that name and no arm scans it under an inner binder |
| `FacetScoping.SecondFacetCaptures` | pg_documentdb/src/aggregation/bson_aggregation_nested_pipeline.c:368-388 | two `$facet` stages in one pipeline: the second walk captures the scans of the first, whatever the arms and however many subqueries lie between |
| `FacetScoping.OtherNamesStayInQuery` | pg_documentdb/src/aggregation/bson_aggregation_nested_pipeline.c:4081-4127 | the walk for one CTE name neither mends nor breaks the scoping of any other name |
| `FacetUnion.BuildUnionTree` | pg_documentdb/src/aggregation/bson_aggregation_nested_pipeline.c:1359-1395 | the loop over two or more arms builds a tree whose left and right leaves are `LeftArms` and `RightArms`, of height exactly ceil(n/2) |
| `FacetUnion.EachArmOnce` | pg_documentdb/src/aggregation/bson_aggregation_nested_pipeline.c:1359-1395 | left and right leaves together hold each arm exactly once |
| `FacetUnion.ArmsInOrder` | pg_documentdb/src/aggregation/bson_aggregation_nested_pipeline.c:1359-1395 | arm 0 is leftmost; left of the root come arms 0, 3, 5, ..., right of it arms 1, 2, 4, 6, ... |
| `FacetUnion.EvaluateFacet` | pg_documentdb/src/aggregation/bson_aggregation_nested_pipeline.c:359-390 | with one facet or more, the stage's document maps each facet name to its own result and has no other field, if and only if facets of the same name do not differ and no name has a dot |
| `FacetUnion.ObjectAggMapsEach` | pg_documentdb/src/aggregation/bson_aggregates.c:1351-1394 | collecting rows whose names agree and have no dot maps each name to its row's array, whatever the order |
| `FacetUnion.AggregateHasNoDot` | pg_documentdb/src/aggregation/bson_aggregates.c:1375-1394 | the document collected has no name with a dot, whatever the names of the rows |
| `FacetUnion.DottedFacetIsNested` | pg_documentdb/src/aggregation/bson_aggregates.c:1375-1394 | a facet "a.b", on its own or beside another one, comes out as b inside a |
| `FacetUnion.DottedNamesHold` | pg_documentdb/src/aggregation/bson_aggregates.c:1351-1394 | for names with any number of dots, none the front of another: the document holds every array at its path, and nothing else but the documents on the way |
| `FacetUnion.FrontFails` | pg_documentdb/src/aggregation/bson_aggregates.c:1375-1394 | a name that is the front of an earlier one is an error |
| `FacetUnion.LeafIsReplaced` | pg_documentdb/src/aggregation/bson_aggregates.c:1375-1394 | a name that an earlier one is the front of takes its place |
| `BinaryHeap.Heap.constructor` | pg_documentdb/src/utils/heap_utils.c:25-37 | an empty heap of the given capacity |
| `BinaryHeap.Heap.Push` | pg_documentdb/src/utils/heap_utils.c:43-61 | pushing in place keeps the heap order and computes `Pushed` |
| `BinaryHeap.Heap.Pop` | pg_documentdb/src/utils/heap_utils.c:67-84 | popping in place returns the top, keeps the heap order and computes `Popped` |
| `BinaryHeap.Heap.HeapifyAt` | pg_documentdb/src/utils/heap_utils.c:126-149 | the recursive in-place sift computes `Heapify` of the nodes |
| `BinaryHeap.TopIsLeast` | pg_documentdb/src/utils/heap_utils.c:90-96 | no node of a heap sorts before its top |
| `BinaryHeap.PushedIsHeap` | pg_documentdb/src/utils/heap_utils.c:43-61 | a push makes a heap of a heap |
| `BinaryHeap.PushedAdds` | pg_documentdb/src/utils/heap_utils.c:43-61 | a push adds exactly the value, as multisets |
| `BinaryHeap.PoppedIsHeap` | pg_documentdb/src/utils/heap_utils.c:67-84 | a pop makes a heap of a heap |
| `BinaryHeap.PoppedRemoves` | pg_documentdb/src/utils/heap_utils.c:67-84 | a pop removes exactly the old top, as multisets |
| `BinaryHeap.SiftUpMakesHeap` | pg_documentdb/src/utils/heap_utils.c:50-58 | moving a node up restores an order broken only above it |
| `BinaryHeap.HeapifyMakesHeap` | pg_documentdb/src/utils/heap_utils.c:126-149 | moving a node down restores an order broken only below it |
| `StoredTopN.StoredMaxMinN` | pg_documentdb/src/aggregation/bson_aggregates.c:1515-1886 | for every way of splitting the rows into partial aggregates and combining them, with the state written to bytes and read back between every two steps, and every layout of the run's values that can be read back and fits: min(n, count) of the non-null inputs; for maxN nothing left out ranks above one kept and the values descend, for minN below and ascend; place by place they rank like all the inputs in that order |
| `StoredTopN.RunBytes` | pg_documentdb/src/aggregation/bson_aggregates.c:1515-1886 | after any such run the bytes decode to a heap of the best n of exactly the inputs, and there are no bytes only if there was no row |
| `StoredTopN.NextRow` | pg_documentdb/src/aggregation/bson_aggregates.c:1592-1623 | a row on stored bytes, written over the buffer its own values lie in: they then decode to the nodes with the row inserted |
| `StoredTopN.CombineBytes` | pg_documentdb/src/aggregation/bson_aggregates.c:1847-1886 | a combine whose values lie in two buffers, written over the right one: it then decodes to the combined nodes |
| `StoredTopN.EveryRunHasACodec` | pg_documentdb/src/aggregation/bson_aggregates.c:1632-1695 | every run of fewer than 2^64 inputs, with an n small enough for n indices to fit, has such a layout |
| `TopN.MaxMinN` | pg_documentdb/src/aggregation/bson_aggregates.c:1515-1886 | the same with the heap itself as state |
| `TopN.InRanks` | pg_documentdb/src/aggregation/bson_aggregates.c:1479-1512 | a heap's best n, best first, said in ranks: for maxN the greatest, for minN the least |
| `TopN.InputsAreRows` | pg_documentdb/src/aggregation/bson_aggregates.c:1530-1560 | the inputs are the non-null values of the rows, each as often as it occurs |
| `TopN.RunPlan` | pg_documentdb/src/aggregation/bson_aggregates.c:1515-1886 | on heaps: after any tree of transitions and combines the state represents the best n of exactly the inputs below it |
| `TopN.Transition` | pg_documentdb/src/aggregation/bson_aggregates.c:1515-1623 | one row: the state is created if missing, a null is ignored, anything else is pushed while there is room or replaces the top unless it sorts before it |
| `TopN.Combine` | pg_documentdb/src/aggregation/bson_aggregates.c:1823-1886 | one state is returned as it is if the other is missing; otherwise the left heap is drained into the right one |
| `TopN.Final` | pg_documentdb/src/aggregation/bson_aggregates.c:1751-1790 | the array has the heap's values, best first; a missing state gives none |
| `TopN.InsertedIsTopN` | pg_documentdb/src/aggregation/bson_aggregates.c:1598-1618 | a row keeps the heap a choice of the best n of all rows so far |
| `TopN.CombinedIsTopN` | pg_documentdb/src/aggregation/bson_aggregates.c:1856-1879 | combining the best n of two row sets gives the best n of both |
| `TopN.BestFirstIsUnique` | pg_documentdb/src/aggregation/bson_aggregates.c:1768-1780 | the final array does not depend, up to values that compare equal, on which choice was kept |
| `HeapState.StateSurvives` | pg_documentdb/src/aggregation/bson_aggregates.c:1632-1742 | a state written and read back is the same state, for no buffer, any buffer, a longer one, and the buffer its own values point into |
| `HeapState.Serialize` | pg_documentdb/src/aggregation/bson_aggregates.c:1632-1695 | the bytes written, into a fresh or the given buffer, decode to what the state meant before a byte was written |
| `HeapState.Deserialize` | pg_documentdb/src/aggregation/bson_aggregates.c:1704-1742 | the state read points into the bytes and means what they decode to |
| `HeapState.DecodeEncode` | pg_documentdb/src/aggregation/bson_aggregates.c:1632-1742 | decoding an encoded state gives it back whatever follows it in the buffer |
| `HeapState.LiteralLayout` | pg_documentdb/src/aggregation/bson_aggregates.c:1632-1695 | the bytes themselves: flag, two eight-byte numbers, and documents of a four-byte header and content |
| `MergeTable.MergeFields` | pg_documentdb/src/aggregation/bson_aggregation_output_pipeline.c:375-491 | for every target and source for which the write loop ends: the hash table and linked list write the one document that WhatIsWritten describes; for a target with distinct keys it is the ordered-map override, target fields in target order with the source's last value, then the source's own keys in the order first seen; and whether the source added no key |
| `MergeTable.EnterTarget` | pg_documentdb/src/aggregation/bson_aggregation_output_pipeline.c:396-426 | entering any target, repeated keys included, leaves entries and pointers that are the table AfterTarget: a found entry keeps its value and is linked in again at the tail |
| `MergeTable.EnterSource` | pg_documentdb/src/aggregation/bson_aggregation_output_pipeline.c:428-476 | a source field replaces the value of its key in place or is linked in at the tail; entries and pointers stay the table |
| `MergeTable.WriteList` | pg_documentdb/src/aggregation/bson_aggregation_output_pipeline.c:479-487 | on a list that ends, the write loop ends and writes exactly the linked entries in order |
| `MergeDocument.EnteredAllIsOverride` | pg_documentdb/src/aggregation/bson_aggregation_output_pipeline.c:375-491 | entering the fields one by one computes the override |
| `MergeLinks.WhatIsWritten` | pg_documentdb/src/aggregation/bson_aggregation_output_pipeline.c:396-487 | for every target and source, repeated keys included, with the values read from the table: a document is written if and only if the target's last key does not occur in it before or the source has a key of its own; it then has the keys of the chain of last occurrences, each with the source's last value or else the target's first |
| `MergeLinks.WhatTheTableHolds` | pg_documentdb/src/aggregation/bson_aggregation_output_pipeline.c:396-476 | after the two steps the entries hold the source's last value or else the target's first, and the keys linked in are those of the target and then the source's own in the order first seen |
| `MergeLinks.WriteLoopEndsIff` | pg_documentdb/src/aggregation/bson_aggregation_output_pipeline.c:396-487 | the write loop ends if and only if the last key linked in does not occur before, and then visits exactly the chain |
| `MergeLinks.DistinctTargetIsOverridden` | pg_documentdb/src/aggregation/bson_aggregation_output_pipeline.c:375-491 | for a target with distinct keys that is the ordered-map override, and nothing else is |
| `MergeLinks.LinkedIffDistinct` | pg_documentdb/src/aggregation/bson_aggregation_output_pipeline.c:402-426 | step 1 leaves a null-terminated list of the target's fields in order if and only if no key of the target is repeated |
| `MergeLinks.RepeatedKeys` | pg_documentdb/src/aggregation/bson_aggregation_output_pipeline.c:402-426 | with a repeated key the list can be a cycle that no walk ends, or lose a field |
| `MergeLinks.RewrittenIffDistinct` | pg_documentdb/src/aggregation/bson_aggregation_output_pipeline.c:396-487 | if the source has only fields of the target, the target is written if and only if it repeats no key |
| `MergeStage.HandleWhenMatched` | pg_documentdb/src/aggregation/bson_aggregation_output_pipeline.c:317-564 | wherever it ends: what is written or the error, by action; schema validation is skipped if and only if the source equals the target, and the document written then is the one that was there if and only if replace finds no second `_id` in it, or merge no repeated key |
| `MergeWrites.ReplaceWrites` | pg_documentdb/src/aggregation/bson_aggregation_output_pipeline.c:345-373 | a replace writes the target's `_id`, and behind it exactly the source's fields other than `_id`, in their order |
| `MergeWrites.MergeWritesValues` | pg_documentdb/src/aggregation/bson_aggregation_output_pipeline.c:375-491 | a merge writes the target's `_id` and then fields of different keys, each with the source's last value or else the target's first |
| `MergeWrites.MergeWritesKeys` | pg_documentdb/src/aggregation/bson_aggregation_output_pipeline.c:375-491 | if the target's fields behind `_id` have different keys they keep their places, and behind them come the source's own keys in the order they first occur there |
| `MergeWrites.WhenItFails` | pg_documentdb/src/aggregation/bson_aggregation_output_pipeline.c:317-372 | each action's error, and exactly when: ImmutableField if and only if the source's first `_id` differs from the target's |
| `MergeStage.WrittenForItself` | pg_documentdb/src/aggregation/bson_aggregation_output_pipeline.c:345-491 | a source equal to the target is written as the target under that condition and no other |
| `MergeStage.RepeatedKeyIsLost` | pg_documentdb/src/aggregation/bson_aggregation_output_pipeline.c:396-557 | keys _id, a, b, a, c merged with themselves: b is lost, without validation |
| `MergeStage.WrittenIsClean` | pg_documentdb/src/aggregation/bson_aggregation_output_pipeline.c:1882-1923 | a matched document keeps its `_id`, in first place; if it repeats no key it goes on so if the source repeats none, and by merge in any case |
| `MergeStage.NewRowIsOk` | pg_documentdb/src/commands/commands_common.c:489-624 | an inserted row's object_id column equals its document's `_id`, which comes first, generated or not; no key is repeated if none of the source is |
| `MergeWrites.InsertedRow` | pg_documentdb/src/commands/commands_common.c:489-624 | a document that begins with `_id` is inserted as it is; otherwise its first `_id` or the generated one comes first, and its other fields follow in their order; the column holds that `_id` |
| `MergeStage.RunKeeps` | pg_documentdb/src/aggregation/bson_aggregation_output_pipeline.c:783-921 | every run over any table, source sequence and pair of actions keeps the table's invariant, the `_id` of every row, and every row no update touched; and rows repeat no key if they did not before and the sources do not |
| `MergeStage.RunOutcome` | pg_documentdb/src/aggregation/bson_aggregation_output_pipeline.c:612-774 | after a run a row of the target is touched exactly when some source joins it, and then holds what the action writes for that source; every unmatched source that is inserted has its row |
| `MergeWrites.UnmatchedStep` | pg_documentdb/src/aggregation/bson_aggregation_output_pipeline.c:853-921 | what a source that joins no row does: nothing, an error, or one row more, unless its `_id` is invalid or taken |
| `MergeWrites.RunFailsAt` | pg_documentdb/src/aggregation/bson_aggregation_output_pipeline.c:612-774 | a run fails with an error if and only if that is the error of the first source that cannot be applied |
| `MergeJoin.RearrangeTargetList` | pg_documentdb/src/aggregation/bson_aggregation_output_pipeline.c:1255-1354 | the new list is numbered densely from the document's number, has the shard key, the generated id and one extraction per `on` field in order, and every original entry once |
| `MergeJoin.JoinTerms` | pg_documentdb/src/aggregation/bson_aggregation_output_pipeline.c:1430-1498 | the j-th join term is the object_id equality for `_id` and otherwise names its field and column 4 + j |
| `MergeJoin.TermsReadTheirFields` | pg_documentdb/src/aggregation/bson_aggregation_output_pipeline.c:1254-1544 | for every `on` list, whatever fields it repeats, each term reads the column that extracts its own field, if and only if the source's document is column 1 or there is no field but `_id` |
| `MergeJoin.ValidateOn` | pg_documentdb/src/aggregation/bson_aggregation_output_pipeline.c:1558-1645 | `on` is accepted exactly when it is `_id` alone or distinct fields that some unique non-partial index has as its key set; a repeated field is reported exactly when there is a usable index |
| `MergeJoin.HashTableOf` | pg_documentdb/src/aggregation/bson_aggregation_output_pipeline.c:1753-1781 | a repeated element is reported exactly when there is one; otherwise the table has exactly the elements |
| `MergeJoin.CoversKeys` | pg_documentdb/src/aggregation/bson_aggregation_output_pipeline.c:1704-1736 | the index fits exactly when its keys are all in the table and no fewer than its elements |
| `MergeJoin.CompoundFits` | pg_documentdb/src/aggregation/bson_aggregation_output_pipeline.c:1704-1736 | for distinct keys and fields, that count decides equality of the two sets |
| `MergeJoin.JoinIsFunctional` | pg_documentdb/src/aggregation/bson_aggregation_output_pipeline.c:1430-1498 | if `on` was accepted and the table obeys its unique indexes, a source row joins at most one target row |
| `MergeJoin.JoinInTerms` | pg_documentdb/src/aggregation/bson_aggregation_output_pipeline.c:1430-1544 | a source row joins a target row if and only if each of its `on` values is a term of the row at that field |
| `MergeRun.AcceptedOnJoinsOnce` | pg_documentdb/src/aggregation/bson_aggregation_output_pipeline.c:1430-1645 | validating `on` and joining on it: an accepted `on` lets no source document of a run join two rows |
| `MergeRun.UpdatesOneRow` | pg_documentdb/src/aggregation/bson_aggregation_output_pipeline.c:783-850 | then a matched source updates its one row, or fails for it, and touches no other |
| `MergeRun.TouchedTwiceIff` | pg_documentdb/src/aggregation/bson_aggregation_output_pipeline.c:612-774 | then a run ends because a row would be updated twice if and only if it gets to a source that joins the row of an earlier one, and matched rows are not just kept |
| `WindowAggregates.RunSums` | pg_documentdb/src/aggregation/bson_aggregates.c:667-844 | after any run of rows entering at the tail and leaving at the head, sum and average equal those recomputed from the window |
| `WindowAggregates.AddedUp` | pg_documentdb/src/aggregation/bson_aggregates.c:667-844 | sum, count and size of a window are those of its parts added up |
| `WindowAggregates.WindowIsRest` | pg_documentdb/src/aggregation/bson_aggregates.c:191-440 | the window is what entered, without as many rows from the front as have left |
| `WindowAggregates.PresentPicks` | pg_documentdb/src/aggregation/bson_aggregates.c:393-440 | `$push` returns exactly the rows of the window that are neither NULL nor missing, in order |
| `WindowAggregates.SumTransition` | pg_documentdb/src/aggregation/bson_aggregates.c:668-723 | the state holds the exact sum and count of the numeric rows of the window with the row added |
| `WindowAggregates.SumInverse` | pg_documentdb/src/aggregation/bson_aggregates.c:733-776 | the state holds those of the window without its head |
| `WindowAggregates.RunPush` | pg_documentdb/src/aggregation/bson_aggregates.c:191-440 | after any such run `$push` yields the present values of the window in order, and it fails exactly when some window on the way exceeded the size limit |
| `WindowAggregates.PushState.Push` | pg_documentdb/src/aggregation/bson_aggregates.c:192-292 | a row is appended exactly when the size stays within the limit; the size written is that of the list |
| `WindowAggregates.PushState.RemoveHead` | pg_documentdb/src/aggregation/bson_aggregates.c:308-359 | the head leaves, with its size |
| `WindowAggregates.NarrowingIsExact` | pg_documentdb/src/aggregation/bson_aggregates.c:1333-1343 | the check on a sum narrowed to 32 bits is exact for a running size and a document if and only if their sum is below 2^32, hence for every running size if and only if the document is below 2^32 - 104857600 bytes |
| `WindowAggregates.SetState.Add` | pg_documentdb/src/aggregation/bson_aggregates.c:1175-1250 | the size counts each value once, with the size it first came in, and stays within bounds; a value is taken exactly when the check passes |
| `WindowAggregates.ObjectState.Add` | pg_documentdb/src/aggregation/bson_aggregates.c:485-537 | the size stays within bounds; when the check passes each name maps to the document's last field of that name, other names as before |
| `LookupUnwind.FusionIsExact` | pg_documentdb/src/aggregation/bson_aggregation_nested_pipeline.c:413-533 | for all collections, joins, `as` paths and both settings the fused stage yields at least as many rows as `$lookup` and then `$unwind`, and the same sequence if and only if for each left document no match is empty, except that a preserved one without a match or with a single empty one must lack the `as` field below an existing parent |
| `LookupUnwind.FusedRows` | pg_documentdb/src/aggregation/bson_aggregation_nested_pipeline.c:1464-1489 | the fused stage has one row per pair of a left and a right document that joins, in the order of left and then right, and with preserve one for each left document that nothing joins |
| `LookupUnwind.FusedOne` | pg_documentdb/src/aggregation/bson_aggregation_nested_pipeline.c:1464-1489 | the same for one left document and its matches |
| `LookupUnwind.FusionWithoutPreserve` | pg_documentdb/src/aggregation/bson_aggregation_nested_pipeline.c:2770-2828 | when no right document is empty, fusing without preserve is always right |
| `LookupUnwind.PreservedFieldDiffers` | pg_documentdb/src/aggregation/bson_aggregation_nested_pipeline.c:2770-2828 | with preserve, an unmatched left document that has the `as` field keeps it when fused and loses it in two stages |
| `LookupUnwind.EmptyMatchDiffers` | pg_documentdb/src/aggregation/bson_aggregation_nested_pipeline.c:2770-2828 | an empty match is a row when fused and none in two stages |
| `Documents.RemoveSetPath` | pg_documentdb/src/aggregation/bson_unwind.c:255-385 | writing at a dotted path and removing it again gives the document back if and only if the path was missing and its parent was not |
| `Documents.UnwindRows` | pg_documentdb/src/aggregation/bson_unwind.c:255-385 | the rows of `$unwind` by what is at the path: nothing, null, an empty array, an array, anything else; elsewhere nothing changes |
| `Documents.SplitIsAll` | pg_documentdb/src/aggregation/bson_aggregation_nested_pipeline.c:1754-1767 | a dotted name is taken apart at every dot, and nothing is lost |
| `LookupPipeline.LookupIsRight` | pg_documentdb/src/aggregation/bson_aggregation_nested_pipeline.c:2305-2839 | for every left document, collection, `as` and pipeline whose inlined stages have safe paths: with nothing left to run after the join the array is right if and only if no joined document is empty; otherwise if and only if the rest of the pipeline makes of the joined documents that are not empty, or of none if `as` has a dot, and without the empty ones of its own, what it makes of all the joined documents |
| `LookupPipeline.RightIffUndotted` | pg_documentdb/src/aggregation/bson_aggregation_nested_pipeline.c:2641-2768 | where no document is empty, that is: `as` has no dot, or the rest of the pipeline makes of the joined documents what it makes of none |
| `LookupPipeline.PlanIsComplete` | pg_documentdb/src/aggregation/bson_aggregation_nested_pipeline.c:2137-2297 | in every branch the part below the join, the pulled `$match` and the rest are the known stages in order; an unknown stage name is an error if and only if the pipeline is not split, and otherwise dropped; only stages that pass their test go below a join |
| `LookupPipeline.PlanByPlaces` | pg_documentdb/src/aggregation/bson_aggregation_nested_pipeline.c:2137-2297 | which stages of the pipeline go below the join, into it and after it, by their places |
| `LookupPipeline.PlainLookup` | pg_documentdb/src/aggregation/bson_aggregation_nested_pipeline.c:2305-2640 | without a pipeline the left document gets the array of the right documents that join and are not empty, in their order |
| `LookupPipeline.SplitPipeline` | pg_documentdb/src/aggregation/bson_aggregation_pipeline.c:2230-2326 | the loop splits after the longest front of stages that pass their test, keeps the known stages of the rest, and reports every pipeline as valid |
| `LookupPipeline.UnwindOfArray` | pg_documentdb/src/aggregation/bson_unwind.c:203-239 | unwinding the aggregated array gives back the documents that are not empty, and nothing if the name has a dot |
| `Documents.ItemsAreAllIff` | pg_documentdb/src/aggregation/bson_aggregates.c:192-292 | the array that is aggregated holds all the documents if and only if none is empty |
| `LookupPipeline.DottedAsFindsNothing` | pg_documentdb/src/aggregation/bson_unwind.c:203-239 | `as: "a.b"` and a stage after the join: the array is empty where it should hold the joined document |
| `LookupPipeline.EmptyDocumentIsLost` | pg_documentdb/src/aggregation/bson_aggregates.c:192-292 | a document left without fields is missing from the array |
| `LookupStages.PathSafeIsSafe` | pg_documentdb/src/aggregation/bson_aggregation_pipeline.c:7106-7240 | whatever a stage computes, it commutes with the join filter on every collection if its paths are safe: `$match` and `$sort` always; `$set` and a nested `$lookup` if they do not touch the first name of the foreign field; `$unset`, exclusion and `$unwind` if their path is not comparable with it; an inclusion if one of its paths ends at the first name |
| `LookupStages.MatchCommutes` | pg_documentdb/src/aggregation/bson_aggregation_pipeline.c:7106-7124 | `$match` commutes with every filter |
| `LookupStages.SortCommutes` | pg_documentdb/src/aggregation/bson_aggregation_pipeline.c:770-784 | `$sort` commutes with every filter |
| `LookupStages.SortIsStable` | pg_documentdb/src/aggregation/bson_aggregation_pipeline.c:770-784 | `$sort` is a permutation in the order of the key, and documents of equal key keep theirs |
| `LookupStages.MatchPicks` | pg_documentdb/src/aggregation/bson_aggregation_pipeline.c:7106-7124 | `$match` keeps exactly the documents it accepts, in their order |
| `LookupStages.MovesBelow` | pg_documentdb/src/aggregation/bson_aggregation_nested_pipeline.c:2182-2199 | a stage that works document by document commutes with a filter that does not tell a document from what the stage makes of it |
| `LookupStages.OnlyThenMovesBelow` | pg_documentdb/src/aggregation/bson_aggregation_nested_pipeline.c:2182-2199 | and only then |
| `LookupTests.SafeIffPathSafe` | pg_documentdb/src/aggregation/bson_aggregation_pipeline.c:7106-7240 | safe paths are also necessary: for every list of names of an `$unset`, an exclusion or an inclusion, every `$unwind`, a `$set` of any fields and a nested `$lookup`; where a `$set` writes a prefix of the foreign field or a `$lookup` a proper one, for what is written under its first name not depending on the document |
| `SeenWrites.UnsetIsSeen` | pg_documentdb/src/aggregation/bson_project.c:2217-2580 | for every list of names one of which is comparable with a path there is a document whose joining on the path changes when the names are unset |
| `SeenWrites.SetIsSeen` | pg_documentdb/src/aggregation/bson_project.c:2217-2580 | for every list of fields one of which has the first name of a path there is a document whose joining on the path changes when they are set, whatever the values unless one is written at a prefix of the path |
| `SeenWrites.LookupIsSeen` | pg_documentdb/src/aggregation/bson_aggregation_nested_pipeline.c:2891-2912 | so it is for the array of a nested `$lookup`, whatever it holds unless it is written at a proper prefix |
| `LookupTests.OwnValueIsSafe` | pg_documentdb/src/aggregation/bson_aggregation_pipeline.c:7134-7161 | and there they are not necessary: a `$set` of b to its own value commutes with the join on b |
| `LookupTests.InclusionWithoutRepeats` | pg_documentdb/src/aggregation/bson_project.c:2217-2400 | on documents that do not repeat the first name of the foreign field an inclusion commutes with the join filter if and only if one of its paths ends at the first or the second name |
| `Inclusion.InclusionUnseen` | pg_documentdb/src/aggregation/bson_project.c:2217-2400 | an inclusion leaves what the join filter decides, if it keeps the first name whole, or the second in a document that does not repeat the first |
| `Inclusion.DroppedInArray` | pg_documentdb/src/aggregation/bson_project.c:2452-2580 | a path of three names or more drops a scalar in a document of an array, and a null then joins |
| `LookupTests.WhenTheTestIsWrong` | pg_documentdb/src/aggregation/bson_aggregation_pipeline.c:7134-7240 | kind by kind and for any number of names, exactly when the test made against the local field lets a stage below the join that must not go there |
| `LookupTests.TestsInStrings` | pg_documentdb/src/aggregation/bson_aggregation_pipeline.c:7106-7240 | the test of each stage in bare strings: what it compares with the local field up to its first dot |
| `LookupTests.OnlyWhenMisjudged` | pg_documentdb/src/aggregation/bson_aggregation_pipeline.c:7134-7240 | one direction of that for every stage, whatever it writes |
| `LookupTests.TestsOfTheSameField` | pg_documentdb/src/aggregation/bson_aggregation_pipeline.c:7134-7240 | for every stage, when local and foreign field start with the same name: the tests of `$set`, `$unset`, exclusion and `$lookup` are never wrong, whatever is written; that of `$unwind` is wrong for every comparable path, that of an inclusion whenever it passes, except for `_id` |
| `LookupTests.UnwindBelowLosesOne` | pg_documentdb/src/aggregation/bson_aggregation_pipeline.c:7213-7240 | local and foreign field b, one document with b: [1, 2], 1 wanted: two documents become one |
| `LookupTests.InclusionBelowLosesAll` | pg_documentdb/src/aggregation/bson_aggregation_pipeline.c:7134-7161 | local and foreign field b, a projection of x: the joined document is lost |
| `LookupTests.SetBelowJoinsMore` | pg_documentdb/src/aggregation/bson_aggregation_pipeline.c:7134-7161 | local field x, foreign field b, a `$set` of b: a document that does not join comes out |
| `JoinFilter.UnsetUnseen` | pg_documentdb_core/src/io/pgbson_utils.c:922-1137 | removing a path, through arrays too, leaves what the join filter reads at a path that is not comparable |
| `JoinFilter.JoinsIff` | pg_documentdb_core/src/io/pgbson_utils.c:922-1137 | a document joins if and only if some way down the path ends at a wanted value or at an array with one, or null is wanted and the path is missing somewhere or ends at a scalar too soon |
| `JoinFilter.UnwindUnseen` | pg_documentdb/src/aggregation/bson_unwind.c:255-385 | unwinding a path leaves what the join filter reads at a path that is not comparable |
| `Wkb.DecodeEncode` | pg_documentdb/src/geospatial/bson_geospatial_wkb_iterator.c:51-245 | the traversal of an encoded geometry, whatever follows it, sees that geometry, nested to any depth, and stops at its end |
| `Wkb.StripInsert` | pg_documentdb/include/geospatial/bson_geospatial_private.h:457-489 | taking flag and SRID out again gives back the original bytes if and only if the flag was clear before |
| `Wkb.DecodeWithSrid` | pg_documentdb/include/geospatial/bson_geospatial_private.h:457-489 | the traversal sees the same geometry with the SRID as without |
| `Wkb.DecodeCollection` | pg_documentdb/include/geospatial/bson_geospatial_private.h:501-538 | a buffer of encoded geometries, wrapped, decodes to the collection of exactly those, in order |
| `Wkb.LiteralBytes` | pg_documentdb/include/geospatial/bson_geospatial_private.h:336-396 | the first bytes of each kind of geometry: byte order 1, type 1 to 7 and the number of parts |
| `Wkb.LiteralSrid` | pg_documentdb/include/geospatial/bson_geospatial_private.h:457-500 | with the SRID they are 01, the type, 00 00 20 and E6 10 00 00 |
| `Wkb.LiteralCollection` | pg_documentdb/include/geospatial/bson_geospatial_private.h:501-538 | and so around a collection, where the number of members and the buffer follow |
| `WkbBuffer.Buffer.WriteGeometry` | pg_documentdb/src/geospatial/bson_geojson_utils.c:190-513 | writing with counts left empty and filled in afterwards, at every level, appends exactly the encoding, counts first |
| `WkbBuffer.Buffer.WritePoints` | pg_documentdb/src/geospatial/bson_geojson_utils.c:564-735 | the same for a line or ring |
| `WkbBuffer.Buffer.WriteNumAt` | pg_documentdb/include/geospatial/bson_geospatial_private.h:380-385 | the number can be read back at the place; the length and every other byte stay |
| `WkbBuffer.HoleIsFilled` | pg_documentdb/include/geospatial/bson_geospatial_private.h:336-396 | filling an empty count in place gives the bytes of writing the count first |
| `WkbIterator.Iterator.Increment` | pg_documentdb/include/geospatial/bson_geospatial_wkb_iterator.h:108-129 | the iterator advances exactly when the bytes are there, and never leaves the buffer |
| `WkbIterator.Iterator.Traverse` | pg_documentdb/src/geospatial/bson_geospatial_wkb_iterator.c:51-245 | the walk succeeds exactly on bytes that decode, ends where the geometry ends, and visits every point once, in order; in every case the iterator stays in the buffer |
| `WkbIterator.PointsInTurn` | pg_documentdb/src/geospatial/bson_geospatial_wkb_iterator.c:51-245 | the points of a polygon are those of its rings in turn, of a collection those of its members |
| `WkbIterator.CountIsSigned` | pg_documentdb/src/geospatial/bson_geospatial_wkb_iterator.c:51-245 | a count of 2^31 or more counts nothing |
| `WkbIterator.SkipIsWalk` | pg_documentdb/src/geospatial/bson_geospatial_wkb_iterator.c:157-185 | passing over a ring in one increment and visiting its points end alike if and only if the count is below 2^27, or the wrapped length of a larger count overruns the buffer, or that of a negative count is zero |
| `WkbIterator.SkipAcceptsAMissingRing` | pg_documentdb/src/geospatial/bson_geospatial_wkb_iterator.c:181-185 | a count of 2^28 points and no bytes: the skip succeeds, the walk fails |

## Left out

- Query trees, target lists and plans are values: updates of nodes in place and sharing of nodes between trees are not captured, only the trees that result.
- The walkers' shared depth counter is modelled as a field; the INT_MAX placeholder, which the mutator clamps, is one value.
- EveryReferenceFindsItsLookup: the columns a lookup's join hands on to its own target list are not among the references, and CTE names carry no nesting level.
- LookupIsRight: for one left document and the values it wants; how these are extracted from it is not modelled. A lookup without `from`, and the fused form without an array, are left out here.
- PathSafeIsSafe: path components that are array indexes, regular expressions among the wanted values, and collation are not modelled; `$project` with computed fields or without `_id`, the error for included names of which one is below another, and the index field of `$unwind`, are left out; documents that compare equal keep their order in `$sort`.
- SafeIffPathSafe: a `$set` at a prefix of the foreign field and a nested `$lookup` at a proper prefix, with values that depend on the document, are covered by PathSafeIsSafe in one direction only, since such values may be the old ones (OwnValueIsSafe).
- WhenTheTestIsWrong: as SafeIffPathSafe; OnlyWhenMisjudged has every stage.
- The `from` collection of a lookup being a view, sharded or in another database; `$unionWith`, `$inverseMatch` and `$documents`.
- GraphLookupIsReachability: the order of the depth column is used only for columns of the same name; merging it into the document in the end is not modelled.
- EvaluateFacet: a facet name that ends in a dot is split into an empty last component.
- Transition: every row of a group has the same n of at least 1, as the operator demands; the error for a heap that needs too much memory is not modelled.
- StoredMaxMinN: the layout of a value in bytes is any that can be read back for the values of the run, with n of them small enough for a varlena; that of BSON is not modelled.
- MaxMinN: the state is a heap throughout; StoredMaxMinN has the bytes between the steps.
- RunPlan: as MaxMinN; RunBytes has the bytes.
- Combine: the top of the right heap is read only when that heap is full; reading the top of an empty array is not modelled.
- Final: the array of values is a sequence, filled from the back by index and pop in that order.
- RunSums: numbers are exact integers; doubles, decimals and the combine of partial sums are not modelled.
- SumTransition: numbers are exact integers.
- SumInverse: numbers are exact integers.
- RunPush: documents of 2^32 - 104857600 bytes or more are excluded, as a PostgreSQL value cannot be that large; the group mode of `$push`, which writes null for a SQL NULL, is not modelled.
- ObjectState.Add: names have no dots, and the single-element form with an empty name is not modelled.
- MergeFields: only where the write loop ends, since a loop that does not end cannot be a method; WhatIsWritten says on values when that is.
- HandleWhenMatched: as MergeFields.
- RunKeeps: a merge whose write loop does not end is an outcome of its own, NeverEnds; a row updated twice in one statement is an error, as PostgreSQL makes it.
- JoinIsFunctional: uniqueness and the terms an index sees at a path are stated on sets of terms; how an index derives them from a document is not modelled.
- AcceptedOnJoinsOnce: the values extracted from a source document and the terms of a row are functions of these, not further described.
- WriteGeometry: the geometry is one that passed GeoJSON validation at least as far as having no empty part; the validation itself, and the re-orientation of polygons by PostGIS, are not modelled.
- Traverse: a four-byte number is read after the check that it is there, where the source reads first; the check that follows fails then, whatever was read. Stopping the traversal early and the visitors other than the one for points are not modelled.
- WKB in big-endian byte order, coordinates as numbers, and the varlena header of the result.
- Parsing of stage specifications, error texts, feature flags, memory contexts, permissions, sharding and everything else of PostgreSQL and Citus around the queries.
- Expression evaluation, the update, index, vector and planner code, and the gateway: not part of this model.
