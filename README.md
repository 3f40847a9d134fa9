# Cl3DModel: a verified model of the 3D point-cloud container

This project models the core of the 3D-model preprocessing framework, which lives in
`3DModelPreProcessing2x/PreprocessingFramework/Source/Model/Cl3DModel.cs`. The core has
four parts:

- **The mesh container `Cl3DModel`.**
  - It keeps an ID-keyed point map, a doubly linked chain of points and a landmark table
    from label names to points.
  - It also keeps a point counter and a next-free-ID counter.
  - Its operations add points (the four `AddPointToModel` overloads) and remove one
    (`RemovePointFromModel`). They reset the model, the visited marks and the colours.
    They also manage the landmarks (`AddSpecificPoint`, `GetSpecificPoint`,
    `RemoveAllSpecificPoints`, `GetAllSpecificPoints`, `IsThisPointInSpecificPoints`).
- **The point iterator `Cl3DModelPointIterator`.** It holds a model and an optional
  current point.
  - It moves through the chain and the ID map.
  - It reads and writes the current point's fields.
  - It keeps neighbour lists symmetric, edits the per-point feature map and the eight
    flags, and finds a point's label.
- **The versioned binary format.**
  - `SaveModel` and `Cl3DModelPoint.SaveMe` always write version 5.
  - `LoadInternalModelType` and `Cl3DModelPoint.LoadPoint` read versions 0 to 5. Fields
    are gated by version. Old files name features and labels by enum code. A load stages
    the points first and then resolves neighbour and label IDs.
- **Path helpers.** `ModelFileName`, `ModelFileFolder`, and the extension dispatch of
  `LoadModel`.

## How the model is built

- **Points live in an arena.** An arena is a `seq<PointRec>`, and a `Handle` is an index
  into it. A handle stands for a .NET object reference.
  - The source compares some things by object (`List.Remove`, `m_pActualPoint`) and some
    by point ID (`AddNeighbor`, the label loops).
  - An iterator keeps pointing at an object after it was removed from the model.
  - The arena keeps both notions apart. A `Cursor` is an `Option<Handle>`; `None` is the
    source's null `m_pActualPoint`.
- **The model state.** `MeshState.ModelState` holds:
  - the arena;
  - the ID map `index: map<u32, Handle>`;
  - the chain head and the landmark table;
  - the counters;
  - the header fields: version, path, model type, expression, history and the
    "changed" flag.
- **The invariant.** `MeshState.Valid(s, hs)` says that `hs` is the chain from the head,
  and that the ID map holds exactly the points of the chain. The count is the map's size.
  Neighbour lists are symmetric, free of duplicates and name live points. Every
  landmark is bound to a live point, and no label repeats.
- **.NET `Dictionary` values** (features, landmarks, load staging) are ordered
  association lists (`Assoc.Dict`). `Put` replaces in place, a new key is appended,
  `Remove` deletes, and `Add` fails on a duplicate key.
- **Operations that throw but also change state** return an `Effect(out, post)`. It
  pairs a `Result` with the state they leave behind.
- **Imperative parts are imperative Dafny.**
  - `Model.Mesh` is a class whose fields are the container's fields. Its methods are
    proved to end in exactly the state the matching function computes from the old state.
  - `Iterators.PointIterator` is a class whose `actual` field the moves update. Its edits
    update the model's arena in place.
  - The chain walks, label scans and neighbour scans are `while` loops in module
    `Walks`. They are proved against the same functions.
- **The file format** is a sequence of typed tokens (`Codec.Token`: strings, `u32`,
  `i32`, single, bool, double), not bytes. `Codec.Encode` is the writer and
  `Codec.Decode` the reader.
- **Floating-point values** are kept as their bit patterns. Only the NaN test is
  interpreted.

## Model

| member | source | states |
|---|---|---|
| Model.Mesh.constructor | 3DModelPreProcessing2x/PreprocessingFramework/Source/Model/Cl3DModel.cs:824-838 | a new model is empty: no point, no label, both counters zero, and it satisfies the invariant |
| Model.Mesh.AddPointWithId | 3DModelPreProcessing2x/PreprocessingFramework/Source/Model/Cl3DModel.cs:1529-1554 | the new state is `Lifecycle.AddPointWithId` of the old one; the new point is prepended to the chain; the invariant is kept while the map holds fewer than 2^32-1 IDs |
| Model.Mesh.AddPoint | 3DModelPreProcessing2x/PreprocessingFramework/Source/Model/Cl3DModel.cs:1514-1520 | the auto-ID overload ends as `Lifecycle.AddPoint` says: a NaN coordinate throws with nothing changed, otherwise the next free ID is used and the chain grows at the head |
| Model.Mesh.AddPointWithRangeAndId | 3DModelPreProcessing2x/PreprocessingFramework/Source/Model/Cl3DModel.cs:1521-1528 | ends as `Lifecycle.AddPointWithRangeAndId` says, and keeps the invariant |
| Model.Mesh.AddPointWithRange | 3DModelPreProcessing2x/PreprocessingFramework/Source/Model/Cl3DModel.cs:1510-1513 | ends as `Lifecycle.AddPointWithRange` says, and keeps the invariant |
| Model.Mesh.RemovePointFromModel | 3DModelPreProcessing2x/PreprocessingFramework/Source/Model/Cl3DModel.cs:1470-1506 | (corrected) ends as the corrected `Removal.RemovePoint` says, so every label bound to the point is dropped, not only the first; for a point on the chain the invariant is kept, and the chain is the old one without that point |
| Model.Mesh.AddSpecificPoint | 3DModelPreProcessing2x/PreprocessingFramework/Source/Model/Cl3DModel.cs:1405-1413 | ends as the corrected `Labels.AddSpecificPoint` says; the invariant is kept on failure and when the iterator names a live point |
| Model.Mesh.RemoveAllSpecificPoints | 3DModelPreProcessing2x/PreprocessingFramework/Source/Model/Cl3DModel.cs:1456-1459 | the new state is `Labels.RemoveAllSpecificPoints` of the old one, and the invariant holds |
| Model.Mesh.IsThisPointInSpecificPoints | 3DModelPreProcessing2x/PreprocessingFramework/Source/Model/Cl3DModel.cs:1429-1441 | the label loop returns what `Cursors.IsThisPointInSpecificPoints` specifies |
| Model.Mesh.GetAllSpecificPoints | 3DModelPreProcessing2x/PreprocessingFramework/Source/Model/Cl3DModel.cs:1460-1468 | the copy loop returns what `Labels.GetAllSpecificPoints` specifies |
| Model.Mesh.SaveModel | 3DModelPreProcessing2x/PreprocessingFramework/Source/Model/Cl3DModel.cs:1198-1229 | the writer fails with a null reference exactly when some label is bound to null; otherwise it emits `Codec.Encode` of `Codec.Snapshot`: header, type, counters, expression, history, labels, then points in chain order |
| Model.Mesh.ResetVisitedPoints | 3DModelPreProcessing2x/PreprocessingFramework/Source/Model/Cl3DModel.cs:955-968 | the chain walk ends in `Resets.ResetVisited` of the old state, and keeps the invariant |
| Model.Mesh.ResetColor | 3DModelPreProcessing2x/PreprocessingFramework/Source/Model/Cl3DModel.cs:970-984 | the chain walk ends in `Resets.ResetColor` of the old state, and keeps the invariant |
| Model.Mesh.ResetModel | 3DModelPreProcessing2x/PreprocessingFramework/Source/Model/Cl3DModel.cs:937-953 | ends in the corrected `Resets.ResetModel` of the old state, with an empty chain and the invariant |
| Lifecycle.AddPointWithId | 3DModelPreProcessing2x/PreprocessingFramework/Source/Model/Cl3DModel.cs:1529-1554 | an ID already in the map throws DuplicateId and changes nothing; otherwise the new point gets the next arena handle |
| Lifecycle.AddPointWithIdPost | 3DModelPreProcessing2x/PreprocessingFramework/Source/Model/Cl3DModel.cs:1534-1552 | a fresh point becomes the head with the old head as its successor, and is the old head's predecessor; the map gains the ID; the count grows by one with 32-bit wrap; the next free ID becomes max(old, id+1) modulo 2^32; nothing else changes |
| Lifecycle.AddPoint | 3DModelPreProcessing2x/PreprocessingFramework/Source/Model/Cl3DModel.cs:1514-1520 | a NaN coordinate throws before any change; otherwise the call is the ID overload with the next free ID, bumped first |
| Lifecycle.AddPointWithRangeAndId | 3DModelPreProcessing2x/PreprocessingFramework/Source/Model/Cl3DModel.cs:1521-1528 | same outcome as the ID overload; on success, the new point's range-image coordinates are then set |
| Lifecycle.AddPointWithRange | 3DModelPreProcessing2x/PreprocessingFramework/Source/Model/Cl3DModel.cs:1510-1513 | the range overload with the next free ID, bumped before the call, so a duplicate still consumes an ID |
| Lifecycle.AddPointValid | 3DModelPreProcessing2x/PreprocessingFramework/Source/Model/Cl3DModel.cs:1529-1554 | adding a fresh ID keeps the invariant, and the new chain is the new point followed by the old chain |
| Lifecycle.AutoIdFresh | 3DModelPreProcessing2x/PreprocessingFramework/Source/Model/Cl3DModel.cs:1514-1520 | when every ID is below the next free ID, the auto-ID overload succeeds with the next free ID, the counter moves one up, and every ID stays below it: auto IDs never collide |
| Lifecycle.AddPointIdsBelow | 3DModelPreProcessing2x/PreprocessingFramework/Source/Model/Cl3DModel.cs:1549-1550 | an explicit ID keeps every ID below the next free ID |
| Removal.RemovePoint | 3DModelPreProcessing2x/PreprocessingFramework/Source/Model/Cl3DModel.cs:1470-1506 | (corrected: the label loop runs over the whole table) an empty model or invalid cursor returns null with nothing changed; a label bound to null anywhere in the table throws before any change, where the source throws only on a null met before the first match; otherwise every label bound to the point is dropped, the passed cursor is nulled and a cursor at the old successor is returned |
| Removal.RemovePointAsWritten | 3DModelPreProcessing2x/PreprocessingFramework/Source/Model/Cl3DModel.cs:1470-1506 | (as written) an empty model or invalid cursor returns null with nothing changed; the label loop stops at the first label bound to the point's ID and drops only that one; a null binding met before it throws with nothing changed |
| Removal.RemoveLeavesDanglingLabel | 3DModelPreProcessing2x/PreprocessingFramework/Source/Model/Cl3DModel.cs:1475-1482 | a point with two labels, removed as written, leaves the second label bound to a point no longer in the model; the corrected removal leaves a valid model |
| Removal.NullAfterMatch | 3DModelPreProcessing2x/PreprocessingFramework/Source/Model/Cl3DModel.cs:1475-1482 | with a null binding after the point's own label, the removal as written succeeds and the corrected one throws with nothing changed |
| Removal.RemovePointValid | 3DModelPreProcessing2x/PreprocessingFramework/Source/Model/Cl3DModel.cs:1470-1506 | removing the k-th point of the chain returns a cursor at the (k+1)-th point, or null at the tail; the invariant holds of the chain without it; the ID leaves the map; no neighbour list mentions the point; exactly the labels bound to it are gone |
| Removal.AsWrittenAgrees | 3DModelPreProcessing2x/PreprocessingFramework/Source/Model/Cl3DModel.cs:1475-1482 | when at most one label is bound to the point, the source's first-match label removal equals the corrected one |
| Removal.DropLabelsFacts | 3DModelPreProcessing2x/PreprocessingFramework/Source/Model/Cl3DModel.cs:1475-1482 | the corrected label filter keeps exactly the labels not bound to the point's ID, and keeps labels unique |
| Removal.DetachComplete | 3DModelPreProcessing2x/PreprocessingFramework/Source/Model/Cl3DModel.cs:1487-1489 | calling RemoveNeighbor for every neighbour removes the point from every list and empties its own; the lists stay symmetric and duplicate-free |
| Removal.SpliceEffect | 3DModelPreProcessing2x/PreprocessingFramework/Source/Model/Cl3DModel.cs:1491-1494 | the successor's prev and the predecessor's next are bridged around the point; no other point changes |
| Removal.Forget | 3DModelPreProcessing2x/PreprocessingFramework/Source/Model/Cl3DModel.cs:1496-1504 | the ID leaves the map and no other ID does; the count drops by one with 32-bit wrap |
| Removal.MoveHeadPast | 3DModelPreProcessing2x/PreprocessingFramework/Source/Model/Cl3DModel.cs:1484-1485 | the head moves to its successor exactly when it carries the removed point's ID |
| Resets.ResetModelValid | 3DModelPreProcessing2x/PreprocessingFramework/Source/Model/Cl3DModel.cs:937-953 | after the corrected reset no point is live; every old chain point is unlinked; the labels are empty; the version is 0; path and type are "Unknown"; the empty chain satisfies the invariant |
| Resets.ResetModelAsWritten | 3DModelPreProcessing2x/PreprocessingFramework/Source/Model/Cl3DModel.cs:937-953 | (as written) the head and the labels are cleared, but the ID map and the count are kept |
| Resets.ResetKeepsStaleIds | 3DModelPreProcessing2x/PreprocessingFramework/Source/Model/Cl3DModel.cs:937-953 | after the reset as written the count is still 1, the model breaks the invariant, and adding the old ID throws DuplicateId; after the corrected reset the add succeeds |
| Resets.ResetVisitedValid | 3DModelPreProcessing2x/PreprocessingFramework/Source/Model/Cl3DModel.cs:955-968 | every live point is unvisited afterwards, only the visited marks change, and the invariant is kept |
| Resets.ResetColorValid | 3DModelPreProcessing2x/PreprocessingFramework/Source/Model/Cl3DModel.cs:970-984 | every live point has the colour afterwards, only colours and the changed flag change, and the invariant is kept |
| Walks.ClearVisited | 3DModelPreProcessing2x/PreprocessingFramework/Source/Model/Cl3DModel.cs:957-967 | the `do`/`while` walk from the head computes `Resets.ResetVisited` |
| Walks.Paint | 3DModelPreProcessing2x/PreprocessingFramework/Source/Model/Cl3DModel.cs:972-983 | the walk computes `Resets.ResetColor` |
| Walks.Dismantle | 3DModelPreProcessing2x/PreprocessingFramework/Source/Model/Cl3DModel.cs:944-952 | the unlinking walk of ResetModel computes `Resets.Unchained` |
| Walks.KeptLabels | 3DModelPreProcessing2x/PreprocessingFramework/Source/Model/Cl3DModel.cs:1475-1482 | the label scan fails exactly when a label is bound to null; otherwise it returns the corrected filter `Removal.DropLabelsOf` |
| Walks.DetachNeighbors | 3DModelPreProcessing2x/PreprocessingFramework/Source/Model/Cl3DModel.cs:1487-1489 | the neighbour loop computes `Removal.DetachAll` over the point's whole list |
| Walks.Unthread | 3DModelPreProcessing2x/PreprocessingFramework/Source/Model/Cl3DModel.cs:1484-1504 | head move, splice and map removal compute `Removal.Unchain` |
| Walks.FindLabel | 3DModelPreProcessing2x/PreprocessingFramework/Source/Model/Cl3DModel.cs:182-197 | the label loop computes `Cursors.FirstLabelOf` |
| Walks.ScanNeighbors | 3DModelPreProcessing2x/PreprocessingFramework/Source/Model/Cl3DModel.cs:199-209 | the neighbour loop finds the ID exactly when some neighbour carries it |
| Walks.NeighborCursors | 3DModelPreProcessing2x/PreprocessingFramework/Source/Model/Cl3DModel.cs:599-610 | one cursor per neighbour, in list order |
| Walks.FeatureNames | 3DModelPreProcessing2x/PreprocessingFramework/Source/Model/Cl3DModel.cs:311-320 | the feature names in table order |
| Walks.LabelPairs | 3DModelPreProcessing2x/PreprocessingFramework/Source/Model/Cl3DModel.cs:1460-1468 | every label with a cursor at its point, in table order |
| Walks.SavedLabels | 3DModelPreProcessing2x/PreprocessingFramework/Source/Model/Cl3DModel.cs:1217-1222 | the writer's label loop computes `Codec.LabelIds`: each label with its point's ID, failing on a null binding |
| Walks.SavedPoints | 3DModelPreProcessing2x/PreprocessingFramework/Source/Model/Cl3DModel.cs:1224-1229 | the writer's chain walk yields one record per chain point, in chain order, with neighbours as IDs |
| Iterators.PointIterator.constructor | 3DModelPreProcessing2x/PreprocessingFramework/Source/Model/Cl3DModel.cs:126-130 | a new iterator is on the model's first point |
| Iterators.PointIterator.At | 3DModelPreProcessing2x/PreprocessingFramework/Source/Model/Cl3DModel.cs:131-135 | an iterator on the given point |
| Iterators.PointIterator.MoveToPoint | 3DModelPreProcessing2x/PreprocessingFramework/Source/Model/Cl3DModel.cs:141-155 | ends as `Cursors.MoveToPoint` says; a cursor on the model stays on it |
| Iterators.PointIterator.MoveToNext | 3DModelPreProcessing2x/PreprocessingFramework/Source/Model/Cl3DModel.cs:157-168 | ends as `Cursors.MoveToNext` says |
| Iterators.PointIterator.MoveToPrevious | 3DModelPreProcessing2x/PreprocessingFramework/Source/Model/Cl3DModel.cs:169-176 | ends as `Cursors.MoveToPrevious` says |
| Iterators.PointIterator.CopyIterator | 3DModelPreProcessing2x/PreprocessingFramework/Source/Model/Cl3DModel.cs:211-217 | an invalid iterator throws; otherwise a fresh iterator on the same model and point |
| Iterators.PointIterator.IsLabeled | 3DModelPreProcessing2x/PreprocessingFramework/Source/Model/Cl3DModel.cs:182-197 | returns `Cursors.IsLabeled` |
| Iterators.PointIterator.IsPointInNeighbors | 3DModelPreProcessing2x/PreprocessingFramework/Source/Model/Cl3DModel.cs:199-209 | returns `Cursors.IsPointInNeighbors` |
| Iterators.PointIterator.GetListOfNeighbors | 3DModelPreProcessing2x/PreprocessingFramework/Source/Model/Cl3DModel.cs:599-610 | returns `Cursors.GetListOfNeighbors` |
| Iterators.PointIterator.GetListOfSpecificValues | 3DModelPreProcessing2x/PreprocessingFramework/Source/Model/Cl3DModel.cs:311-320 | returns `Cursors.GetListOfSpecificValues` |
| Iterators.PointIterator.SetSingle | 3DModelPreProcessing2x/PreprocessingFramework/Source/Model/Cl3DModel.cs:322-372 | the X/Y/Z setters (and U/V at 474-508) end as `Cursors.SetSingle` says, and keep the invariant |
| Iterators.PointIterator.AddSpecificValue | 3DModelPreProcessing2x/PreprocessingFramework/Source/Model/Cl3DModel.cs:238-257 | ends as `Cursors.AddSpecificValue` says, and keeps the invariant |
| Iterators.PointIterator.RemoveSpecificValue | 3DModelPreProcessing2x/PreprocessingFramework/Source/Model/Cl3DModel.cs:258-269 | ends as `Cursors.RemoveSpecificValue` says, and keeps the invariant |
| Iterators.PointIterator.SetFlag | 3DModelPreProcessing2x/PreprocessingFramework/Source/Model/Cl3DModel.cs:639-646 | ends as `Cursors.SetFlag` says, and keeps the invariant |
| Iterators.PointIterator.AddNeighbor | 3DModelPreProcessing2x/PreprocessingFramework/Source/Model/Cl3DModel.cs:562-586 | ends as `Cursors.AddNeighbor` says; linking two live points keeps the invariant |
| Iterators.PointIterator.Connect | 3DModelPreProcessing2x/PreprocessingFramework/Source/Model/Cl3DModel.cs:570-580 | the duplicate checks and the two appends compute `Cursors.AddNeighbor` |
| Iterators.PointIterator.RemoveNeighbor | 3DModelPreProcessing2x/PreprocessingFramework/Source/Model/Cl3DModel.cs:587-597 | ends as `Cursors.RemoveNeighbor` says, and keeps the invariant |
| Cursors.MoveToPoint | 3DModelPreProcessing2x/PreprocessingFramework/Source/Model/Cl3DModel.cs:141-155 | moves exactly when the cursor is valid and the ID is in the map, and then to that point; otherwise false with the cursor unchanged |
| Cursors.MoveToNext | 3DModelPreProcessing2x/PreprocessingFramework/Source/Model/Cl3DModel.cs:157-168 | follows the successor; past the tail the cursor becomes invalid and the result is false |
| Cursors.MoveToPrevious | 3DModelPreProcessing2x/PreprocessingFramework/Source/Model/Cl3DModel.cs:169-176 | moves exactly when there is a predecessor; at the head it is false and stays put |
| Cursors.NextThenPrevious | 3DModelPreProcessing2x/PreprocessingFramework/Source/Model/Cl3DModel.cs:157-176 | on a valid chain, MoveToPrevious after MoveToNext returns to the same point |
| Cursors.WalkForward | 3DModelPreProcessing2x/PreprocessingFramework/Source/Model/Cl3DModel.cs:157-168 | MoveToNext from the k-th chain point reaches the (k+1)-th, or invalid at the tail |
| Cursors.CopyIterator | 3DModelPreProcessing2x/PreprocessingFramework/Source/Model/Cl3DModel.cs:211-217 | throws exactly on an invalid cursor, else the same point |
| Cursors.GetSingle | 3DModelPreProcessing2x/PreprocessingFramework/Source/Model/Cl3DModel.cs:322-372 | X, Y, Z, U and V (474-508) throw on an invalid cursor, else return the field |
| Cursors.SetSingleGet | 3DModelPreProcessing2x/PreprocessingFramework/Source/Model/Cl3DModel.cs:322-372 | a set field reads back; every other field of every point is unchanged |
| Cursors.GetInt | 3DModelPreProcessing2x/PreprocessingFramework/Source/Model/Cl3DModel.cs:373-407 | RangeImageX/Y throw on an invalid cursor, else return the field |
| Cursors.SetIntGet | 3DModelPreProcessing2x/PreprocessingFramework/Source/Model/Cl3DModel.cs:373-407 | a set range coordinate reads back; the rest is unchanged |
| Cursors.SettersValid | 3DModelPreProcessing2x/PreprocessingFramework/Source/Model/Cl3DModel.cs:322-407 | the coordinate and range setters keep the invariant |
| Cursors.MarkSettersValid | 3DModelPreProcessing2x/PreprocessingFramework/Source/Model/Cl3DModel.cs:219-236 | the visited, colour (419-436) and normal (509-528) setters keep the invariant |
| Cursors.GetPointID | 3DModelPreProcessing2x/PreprocessingFramework/Source/Model/Cl3DModel.cs:408-418 | throws on an invalid cursor, else the point's ID |
| Cursors.GetVisited | 3DModelPreProcessing2x/PreprocessingFramework/Source/Model/Cl3DModel.cs:219-236 | AlreadyVisited throws on an invalid cursor, else returns the mark |
| Cursors.GetColor | 3DModelPreProcessing2x/PreprocessingFramework/Source/Model/Cl3DModel.cs:419-436 | throws on an invalid cursor, else the packed colour |
| Cursors.GetColorChannels | 3DModelPreProcessing2x/PreprocessingFramework/Source/Model/Cl3DModel.cs:437-472 | ColorR/G/B are bytes that repack into the colour's low 24 bits |
| Cursors.GetNormal | 3DModelPreProcessing2x/PreprocessingFramework/Source/Model/Cl3DModel.cs:509-528 | throws on an invalid cursor or a point without a normal, else the normal |
| Cursors.AddSpecificValue | 3DModelPreProcessing2x/PreprocessingFramework/Source/Model/Cl3DModel.cs:238-257 | throws exactly on an invalid cursor; otherwise the feature is stored, replacing an earlier value |
| Cursors.GetSpecificValue | 3DModelPreProcessing2x/PreprocessingFramework/Source/Model/Cl3DModel.cs:270-295 | throws on an invalid cursor or a missing feature; otherwise the stored value |
| Cursors.TryGetSpecificValue | 3DModelPreProcessing2x/PreprocessingFramework/Source/Model/Cl3DModel.cs:270-284 | the out-parameter form: nothing exactly when the feature is missing |
| Cursors.RemoveSpecificValue | 3DModelPreProcessing2x/PreprocessingFramework/Source/Model/Cl3DModel.cs:258-269 | throws exactly on an invalid cursor; otherwise the feature is gone and a missing one is no error |
| Cursors.IsSpecificValueCalculated | 3DModelPreProcessing2x/PreprocessingFramework/Source/Model/Cl3DModel.cs:296-309 | true exactly when the feature is stored |
| Cursors.GetListOfSpecificValues | 3DModelPreProcessing2x/PreprocessingFramework/Source/Model/Cl3DModel.cs:311-320 | the stored feature names, in table order |
| Cursors.FeatureMapSemantics | 3DModelPreProcessing2x/PreprocessingFramework/Source/Model/Cl3DModel.cs:238-295 | the feature table is a last-writer-wins map: after an add the name reads back its value; after a remove it is missing; other names are untouched |
| Cursors.FeatureEditsValid | 3DModelPreProcessing2x/PreprocessingFramework/Source/Model/Cl3DModel.cs:238-269 | feature edits keep the invariant |
| Cursors.SetFlag | 3DModelPreProcessing2x/PreprocessingFramework/Source/Model/Cl3DModel.cs:639-646 | throws on an invalid cursor; an index of 8 or more changes nothing; otherwise that flag is set |
| Cursors.GetFlag | 3DModelPreProcessing2x/PreprocessingFramework/Source/Model/Cl3DModel.cs:647-656 | throws on an invalid cursor; false for an index of 8 or more; otherwise the flag |
| Cursors.FlagSemantics | 3DModelPreProcessing2x/PreprocessingFramework/Source/Model/Cl3DModel.cs:639-656 | a set flag reads back, the others are unchanged, and an index of 8 or more stays false |
| Cursors.SetFlagValid | 3DModelPreProcessing2x/PreprocessingFramework/Source/Model/Cl3DModel.cs:639-646 | setting a flag keeps the invariant |
| Cursors.FirstLabelOf | 3DModelPreProcessing2x/PreprocessingFramework/Source/Model/Cl3DModel.cs:186-196 | a returned label is bound to a point with the ID; no label means none is; a null binding met first throws |
| Cursors.IsLabeled | 3DModelPreProcessing2x/PreprocessingFramework/Source/Model/Cl3DModel.cs:182-197 | throws on an invalid cursor, else the first label bound to a point with the current point's ID |
| Cursors.IsLabeledExact | 3DModelPreProcessing2x/PreprocessingFramework/Source/Model/Cl3DModel.cs:182-197 | on a valid model, a live point has a label exactly when some label is bound to it, and the label returned is one |
| Cursors.IsThisPointInSpecificPoints | 3DModelPreProcessing2x/PreprocessingFramework/Source/Model/Cl3DModel.cs:1429-1441 | an empty table gives false even for an invalid iterator; otherwise it is IsLabeled |
| Cursors.IsPointInNeighbors | 3DModelPreProcessing2x/PreprocessingFramework/Source/Model/Cl3DModel.cs:199-209 | true exactly when some neighbour carries the ID |
| Cursors.GetListOfNeighbors | 3DModelPreProcessing2x/PreprocessingFramework/Source/Model/Cl3DModel.cs:599-610 | one cursor per neighbour, in order |
| Cursors.AddNeighbor | 3DModelPreProcessing2x/PreprocessingFramework/Source/Model/Cl3DModel.cs:562-586 | throws on an invalid cursor; a no-op for the same ID or an ID already among the neighbours |
| Cursors.AddNeighborValid | 3DModelPreProcessing2x/PreprocessingFramework/Source/Model/Cl3DModel.cs:562-586 | linking two live points keeps the invariant (symmetry included), and afterwards each is in the other's list |
| Cursors.RemoveNeighbor | 3DModelPreProcessing2x/PreprocessingFramework/Source/Model/Cl3DModel.cs:587-597 | an invalid cursor and a null argument throw; otherwise the first occurrence is removed both ways |
| Cursors.RemoveNeighborValid | 3DModelPreProcessing2x/PreprocessingFramework/Source/Model/Cl3DModel.cs:587-597 | unlinking keeps the invariant, and afterwards neither point is in the other's list |
| Labels.AddSpecificPoint | 3DModelPreProcessing2x/PreprocessingFramework/Source/Model/Cl3DModel.cs:1405-1413 | (corrected) a null or invalid iterator throws with nothing changed; otherwise the label is bound, replacing an earlier binding |
| Labels.AddSpecificPointAsWritten | 3DModelPreProcessing2x/PreprocessingFramework/Source/Model/Cl3DModel.cs:1405-1413 | (as written) throws exactly on a null or invalid iterator; a non-null iterator's binding is stored even when the call then throws |
| Labels.FailedAddLeavesNullLabel | 3DModelPreProcessing2x/PreprocessingFramework/Source/Model/Cl3DModel.cs:1405-1413 | an iterator with no current point leaves the label bound to null: the lookup and a later removal then throw; the corrected call changes nothing |
| Labels.AddThenGet | 3DModelPreProcessing2x/PreprocessingFramework/Source/Model/Cl3DModel.cs:1405-1427 | after binding a label, GetSpecificPoint returns its point, and other labels look up as before |
| Labels.AddSpecificPointValid | 3DModelPreProcessing2x/PreprocessingFramework/Source/Model/Cl3DModel.cs:1405-1413 | binding a label to a live point keeps the invariant |
| Labels.GetSpecificPoint | 3DModelPreProcessing2x/PreprocessingFramework/Source/Model/Cl3DModel.cs:1443-1455 | the value-returning lookup succeeds exactly when the ref form finds a label, and then returns the same point; an unknown label throws |
| Labels.RemoveAllSpecificPoints | 3DModelPreProcessing2x/PreprocessingFramework/Source/Model/Cl3DModel.cs:1456-1459 | afterwards no label is found, and nothing but the table changes |
| Labels.RemoveAllValid | 3DModelPreProcessing2x/PreprocessingFramework/Source/Model/Cl3DModel.cs:1456-1459 | clearing the table keeps the invariant |
| Labels.GetAllSpecificPoints | 3DModelPreProcessing2x/PreprocessingFramework/Source/Model/Cl3DModel.cs:1460-1468 | one pair per label, and each pair's cursor is what GetSpecificPoint returns for its label |
| Labels.AllFacts | 3DModelPreProcessing2x/PreprocessingFramework/Source/Model/Cl3DModel.cs:1418-1427 | in a table without repeated labels, each bound entry is what the lookup finds |
| Paths.Substring | 3DModelPreProcessing2x/PreprocessingFramework/Source/Model/Cl3DModel.cs:910-912 | .NET `Substring`: throws unless start and length are in range, else the slice |
| Paths.ModelFileNameCases | 3DModelPreProcessing2x/PreprocessingFramework/Source/Model/Cl3DModel.cs:899-917 | "Unknown" without a dot or unless exactly one separator kind occurs; otherwise the text between the last separator and the last dot |
| Paths.ModelFileNameClean | 3DModelPreProcessing2x/PreprocessingFramework/Source/Model/Cl3DModel.cs:899-917 | a file name returned holds no separator |
| Paths.ModelFileName | 3DModelPreProcessing2x/PreprocessingFramework/Source/Model/Cl3DModel.cs:899-917 | (as written) the getter itself; its outcome case by case is `Paths.ModelFileNameCases` |
| Paths.DotBeforeSeparatorThrows | 3DModelPreProcessing2x/PreprocessingFramework/Source/Model/Cl3DModel.cs:903-912 | the path "scans.v2/face" makes the getter throw |
| Paths.ModelFileNameCorrected | 3DModelPreProcessing2x/PreprocessingFramework/Source/Model/Cl3DModel.cs:899-917 | (corrected) never throws; agrees with the getter wherever it does not throw; when the last dot precedes the last separator, the name is all the text after the separator |
| Paths.ModelFileNameCorrectedClean | 3DModelPreProcessing2x/PreprocessingFramework/Source/Model/Cl3DModel.cs:899-917 | a corrected file name holds no separator |
| Paths.DotBeforeSeparatorName | 3DModelPreProcessing2x/PreprocessingFramework/Source/Model/Cl3DModel.cs:903-912 | the corrected name of "scans.v2/face" is "face" |
| Paths.ModelFileFolder | 3DModelPreProcessing2x/PreprocessingFramework/Source/Model/Cl3DModel.cs:918-935 | the prefix through the last separator when exactly one separator kind occurs, else "Unknown" |
| Paths.FolderAndName | 3DModelPreProcessing2x/PreprocessingFramework/Source/Model/Cl3DModel.cs:899-935 | folder + name + "." + extension splits back into that folder and that name |
| Paths.Extension | 3DModelPreProcessing2x/PreprocessingFramework/Source/Model/Cl3DModel.cs:1114-1116 | the lower-cased text after the last dot, the whole lower-cased path without a dot |
| Paths.SelectReader | 3DModelPreProcessing2x/PreprocessingFramework/Source/Model/Cl3DModel.cs:1118-1134 | "binarymodel" goes to the internal reader; otherwise the last registered reader with the extension wins; with none it throws |
| Names.PointLabel | 3DModelPreProcessing2x/PreprocessingFramework/Source/Model/Cl3DModel.cs:45-63 | `eSpecificPoints.ToString`: codes 1 to 16 give their names, any other code its decimal digits |
| Names.ValueName | 3DModelPreProcessing2x/PreprocessingFramework/Source/Model/Cl3DModel.cs:67-121 | `eSpecificValues.ToString`: codes 1 to 43 give their names, any other code its decimal digits |
| Names.PointLabelCode | 3DModelPreProcessing2x/PreprocessingFramework/Source/Model/Cl3DModel.cs:45-63 | the landmark names are distinct, so name and code map back to each other |
| Names.PointCodeInverse | 3DModelPreProcessing2x/PreprocessingFramework/Source/Model/Cl3DModel.cs:45-63 | a name that has a code is that code's name |
| Names.ValueCodeInverse | 3DModelPreProcessing2x/PreprocessingFramework/Source/Model/Cl3DModel.cs:67-121 | a feature name that has a code is that code's name |
| Text.ParseDecimal | 3DModelPreProcessing2x/PreprocessingFramework/Source/Model/Cl3DModel.cs:1000-1002 | `UInt32.Parse` reads back every number the writer prints |
| Text.JoinSplit | 3DModelPreProcessing2x/PreprocessingFramework/Source/Model/Cl3DModel.cs:1000-1001 | `String.Split` loses nothing: joining the pieces gives the string back |
| Codec.ParseVersion | 3DModelPreProcessing2x/PreprocessingFramework/Source/Model/Cl3DModel.cs:998-1005 | a version read from the header is at most 5; a version above 5 throws |
| Codec.HeaderRoundTrip | 3DModelPreProcessing2x/PreprocessingFramework/Source/Model/Cl3DModel.cs:998-1005 | a header naming N parses back to N when N is at most 5, and throws otherwise |
| Codec.HeaderVersion | 3DModelPreProcessing2x/PreprocessingFramework/Source/Model/Cl3DModel.cs:1204 | the header the writer emits parses as version 5 |
| Codec.ForeignHeaderKeepsVersion | 3DModelPreProcessing2x/PreprocessingFramework/Source/Model/Cl3DModel.cs:998-1005 | a header without the version tag leaves the model's version in place |
| Codec.ReadFeatureName | 3DModelPreProcessing2x/PreprocessingFramework/Source/Model/Cl3DModel.cs:774-789 | at version 0 a feature name is an enum code mapped through `eSpecificValues`, later a string |
| Codec.ReadFixed | 3DModelPreProcessing2x/PreprocessingFramework/Source/Model/Cl3DModel.cs:745-760 | U and V are read only at versions 3 to 5 and are zero otherwise |
| Codec.ReadPreamble | 3DModelPreProcessing2x/PreprocessingFramework/Source/Model/Cl3DModel.cs:998-1022 | the expression is read only from version 4, the history only at version 5 |
| Codec.ReadLabels | 3DModelPreProcessing2x/PreprocessingFramework/Source/Model/Cl3DModel.cs:1024-1049 | the label table read has no repeated label; from version 2 a repeat is no error |
| Codec.RepeatedLabel | 3DModelPreProcessing2x/PreprocessingFramework/Source/Model/Cl3DModel.cs:1027-1045 | from version 2 a repeated label keeps its first binding; at versions 0 and 1 it throws |
| Codec.ReadPointsWell | 3DModelPreProcessing2x/PreprocessingFramework/Source/Model/Cl3DModel.cs:1056-1075 | the points read carry distinct IDs (`Dictionary.Add`) and feature tables without repeats |
| Codec.Decode | 3DModelPreProcessing2x/PreprocessingFramework/Source/Model/Cl3DModel.cs:994-1075 | a successful read gives as many points as the count says, distinct IDs, unique labels, and the version gating of expression and history |
| Codec.LabelIds | 3DModelPreProcessing2x/PreprocessingFramework/Source/Model/Cl3DModel.cs:1217-1222 | the writer's label entries: fails exactly on a null binding, else each label with its point's ID |
| Codec.Snapshot | 3DModelPreProcessing2x/PreprocessingFramework/Source/Model/Cl3DModel.cs:1198-1229 | the data the writer emits fails exactly when some label is bound to null |
| Codec.PointFileOf | 3DModelPreProcessing2x/PreprocessingFramework/Source/Model/Cl3DModel.cs:716-741 | SaveMe writes the neighbours as their IDs, in list order |
| Codec.Encode | 3DModelPreProcessing2x/PreprocessingFramework/Source/Model/Cl3DModel.cs:1198-1229 | the writer: header, type, counters, expression, history, the label table, then the point records; `Codec.DecodeEncode` reads it back |
| Codec.DecodeEncode | 3DModelPreProcessing2x/PreprocessingFramework/Source/Model/Cl3DModel.cs:716-796 | the reader reads back everything the writer writes: the fields are written in the order that version 5 reads them |
| Loading.BindLabels | 3DModelPreProcessing2x/PreprocessingFramework/Source/Model/Cl3DModel.cs:1091-1101 | each label is bound to the point that carries its ID, and the binding fails exactly when some ID is unknown |
| Loading.RegisteredInverse | 3DModelPreProcessing2x/PreprocessingFramework/Source/Model/Cl3DModel.cs:1056-1075 | the staging map sends each read ID to the point created for it |
| Loading.ResolveList | 3DModelPreProcessing2x/PreprocessingFramework/Source/Model/Cl3DModel.cs:1077-1089 | resolving one neighbour list changes only neighbour lists, and fails only on an unknown ID |
| Loading.Install | 3DModelPreProcessing2x/PreprocessingFramework/Source/Model/Cl3DModel.cs:1050-1101 | (corrected) stage the points read, resolve neighbour IDs, then bind labels; its outcome is stated by the `LoadFacts` lemmas |
| Loading.InstallAsWritten | 3DModelPreProcessing2x/PreprocessingFramework/Source/Model/Cl3DModel.cs:1050-1101 | (as written) the same, except that the head is assigned only inside the point loop, so a file with no point keeps the old head |
| Loading.LoadInternal | 3DModelPreProcessing2x/PreprocessingFramework/Source/Model/Cl3DModel.cs:994-1107 | (corrected) decode the tokens at the model's version, then `Loading.Install`; `RoundTrip.LoadSaved` and `RoundTrip.SaveLoad` state its outcome on a saved file |
| Loading.LoadInternalAsWritten | 3DModelPreProcessing2x/PreprocessingFramework/Source/Model/Cl3DModel.cs:994-1107 | (as written) decode, then `Loading.InstallAsWritten` |
| LoadFacts.InstallOk | 3DModelPreProcessing2x/PreprocessingFramework/Source/Model/Cl3DModel.cs:1077-1101 | the load succeeds exactly when every neighbour ID and every label ID names a point read; otherwise it throws |
| LoadFacts.InstallValid | 3DModelPreProcessing2x/PreprocessingFramework/Source/Model/Cl3DModel.cs:1050-1101 | a loaded model satisfies the invariant, with the points read as its chain in file order |
| LoadFacts.InstallPoints | 3DModelPreProcessing2x/PreprocessingFramework/Source/Model/Cl3DModel.cs:1056-1075 | every point read is created with its saved fields and features, in file order |
| LoadFacts.InstallIndex | 3DModelPreProcessing2x/PreprocessingFramework/Source/Model/Cl3DModel.cs:1053-1063 | the ID map holds exactly the IDs read, each naming the point created for it |
| LoadFacts.InstallLinks | 3DModelPreProcessing2x/PreprocessingFramework/Source/Model/Cl3DModel.cs:1077-1089 | two loaded points are neighbours exactly when either names the other in the file |
| LoadFacts.InstallLabels | 3DModelPreProcessing2x/PreprocessingFramework/Source/Model/Cl3DModel.cs:1091-1101 | the label table holds the labels read, each bound to its ID's point |
| LoadFacts.InstallFields | 3DModelPreProcessing2x/PreprocessingFramework/Source/Model/Cl3DModel.cs:998-1022 | the version, type, counters and expression come from the file; the history read is appended to the old one; the path stays |
| LoadFacts.InstallFacts | 3DModelPreProcessing2x/PreprocessingFramework/Source/Model/Cl3DModel.cs:994-1107 | all of the above at once, for the corrected load |
| LoadFacts.EmptyFileKeepsOldHead | 3DModelPreProcessing2x/PreprocessingFramework/Source/Model/Cl3DModel.cs:1050-1075 | loading an empty file as written succeeds with the old head over an emptied ID map, a model that satisfies the invariant for no chain |
| LoadFacts.EmptyFileEmptiesModel | 3DModelPreProcessing2x/PreprocessingFramework/Source/Model/Cl3DModel.cs:1050-1075 | the corrected load of an empty file gives the empty, valid model |
| RoundTrip.LoadSaved | 3DModelPreProcessing2x/PreprocessingFramework/Source/Model/Cl3DModel.cs:1109-1229 | loading a saved file is installing what was saved |
| RoundTrip.SaveLoad | 3DModelPreProcessing2x/PreprocessingFramework/Source/Model/Cl3DModel.cs:1198-1229 | loading what SaveModel wrote succeeds with a valid model whose chain is the saved one in order; it has the same point fields, features, neighbour sets, labels, type, counters and expression, and the history appended |

## Left out

- The byte encoding of `BinaryReader`/`BinaryWriter`, including the .NET string length prefix, is left out. The file is a sequence of typed tokens, and reading a token of the wrong kind is the error `WrongToken`.
- Opening, closing and naming files, and the ".binaryModel" suffix `SaveModel` appends, are left out. `Mesh.SaveModel` returns the tokens and `Loading.LoadInternal` takes them.
- `LoadModel` and `LoadInternalModelType` are functions on the state (`Loading.LoadInternal`, `Loading.Install`), not a `Mesh` method. The staging dictionaries and the chain linking are modelled as functions over the arena.
- A load that fails part-way leaves partially updated fields in the source. The model does not state what is left after a failure. It only states that the load fails and with which error.
- The foreign importers (`IModelReader.ReadModel`) and the static reader registry's contents are left out. They are external code. `Paths.SelectReader` models only which reader is chosen.
- `ClInformationSender` diagnostics are left out. They have no effect on the model.
- `GetModelInfo`, `GetBMPImage`, `GetColorRGB`, the distance `operator -` and the matrix operators are left out. They are text, raster and floating-point output.
- The normal vector is an opaque value.
- The point flags are not written by `SaveMe` or read back, and neither is the normal vector. The round trip therefore does not cover them: a loaded point has eight cleared flags and no normal.
- .NET `Dictionary` enumeration order is unspecified. The model fixes it as insertion order with in-place replacement. The order of `GetListOfSpecificValues`, `GetAllSpecificPoints`, the label loops and the saved tables follows from that choice.
- `UInt32.Parse` accepts leading and trailing white space and a sign. `Text.ParseU32` accepts only plain decimal digits. This covers every header the writer produces.
- `Codec.Fits` assumes every saved list is shorter than 2^31 entries, so that its length fits the `int` count the writer emits.
- RoundTrip.SaveLoad: it restores neighbour *sets*, not list order. Resolution calls `AddNeighbor` in file order, which can reorder lists.
- RoundTrip.SaveLoad: the path is not restored. The header's path string is read and discarded, and the path is the one `LoadModel` was given.
- Model.Mesh.AddPointWithId: the invariant is proved only while the ID map holds fewer than 2^32-1 entries. The count is a 32-bit counter that wraps.
- Model.Mesh.AddPoint: the invariant is proved only while the ID map holds fewer than 2^32-1 entries, for the same reason.
- Model.Mesh.AddPointWithRangeAndId: the invariant is proved only while the ID map holds fewer than 2^32-1 entries, for the same reason.
- Model.Mesh.AddPointWithRange: the invariant is proved only while the ID map holds fewer than 2^32-1 entries, for the same reason.
- Model.Mesh.RemovePointFromModel: the invariant is proved only for a cursor at a point on the chain. A cursor at a point already removed is outside the invariant.
- Iterators.PointIterator.AddNeighbor: the invariant is proved only when both points are live. A null iterator *object* passed as the argument is not modelled; an iterator with no current point is. The rollback at 582-585 cannot run, because appending to a list does not fail.
- Iterators.PointIterator.RemoveNeighbor: a null iterator object as the argument is modelled as an argument with no current point.
- Iterators and cursors are values. `GetListOfNeighbors` and `GetAllSpecificPoints` return cursors, not new iterator objects, and a removed cursor's `m_mManagedModel = null` is not modelled.
- Only some setters are `PointIterator` methods: X/Y/Z/U/V (`SetSingle`), the features and the flags. The range-image, visited, colour and normal setters are the `Cursors` functions `SetInt`, `SetVisited`, `SetColor` and `SetNormal`, with their invariant lemmas.
- The walks (`Walks`) run on a copy of the arena and the result is stored back. Aliasing between the model and the iterators is expressed through handles.
- Removal.RemovePoint: the corrected removal reads every label, so it throws on a null binding that follows the point's own label, where the source stops at the first match and succeeds (`Removal.NullAfterMatch`). Valid models hold no null binding.
- Paths.Extension: only ASCII `A`-`Z` are lower-cased. .NET `String.ToLower` follows the current culture and also lowers other letters ("FÄCE" becomes "fäce"), so `Paths.Extension` and `Paths.SelectReader` differ from the source for extensions with non-ASCII capitals.
- The enum overloads of `GetSpecificPoint` and `AddSpecificPoint` are not separate members. They pass `Names.PointLabel(code)` to the string forms.

## Findings

| source | as written | input that shows it | evidently intended | confidence | as-written member | corrected member |
|---|---|---|---|---|---|---|
| 3DModelPreProcessing2x/PreprocessingFramework/Source/Model/Cl3DModel.cs:903-912 | `ModelFileName` calls `Substring` with a negative length when the last '.' comes before the last separator | the path "scans.v2/face" | "face": only a dot after the last separator starts an extension | not executed | Paths.DotBeforeSeparatorThrows | Paths.ModelFileNameCorrected |
| 3DModelPreProcessing2x/PreprocessingFramework/Source/Model/Cl3DModel.cs:937-953 | `ResetModel` empties the chain but keeps the ID map and the point count | reset a one-point model, then add a point with the same ID | the reset model is empty: the add succeeds and the count is 0 | not executed | Resets.ResetKeepsStaleIds | Resets.ResetModelValid |
| 3DModelPreProcessing2x/PreprocessingFramework/Source/Model/Cl3DModel.cs:1475-1482 | `RemovePointFromModel` removes only the first label bound to the point | a point with two labels, then removed | every label of the removed point goes, and no label is left dangling; the loop then reads every binding, so a null binding anywhere throws (`Removal.NullAfterMatch`) | not executed | Removal.RemoveLeavesDanglingLabel | Removal.RemovePointValid |
| 3DModelPreProcessing2x/PreprocessingFramework/Source/Model/Cl3DModel.cs:1405-1413 | `AddSpecificPoint` binds the label before reading the iterator's X, so an invalid iterator leaves a null binding before it throws | an iterator with no current point | the call throws and leaves the table as it was | not executed | Labels.FailedAddLeavesNullLabel | Labels.AddSpecificPoint |
| 3DModelPreProcessing2x/PreprocessingFramework/Source/Model/Cl3DModel.cs:1050-1075 | loading a file with no point keeps the old head while the ID map is emptied | load a file with count 0 into a non-empty model | the loaded model is empty | not executed | LoadFacts.EmptyFileKeepsOldHead | LoadFacts.EmptyFileEmptiesModel |
