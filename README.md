# Whiteboard merge and the `files` table, in Dafny

This project models the Convex module `convex/files.tsx` of a collaborative
document and whiteboard editor. The module keeps a `files` table. Each record
has a file name, a team, an author, an archive flag, a rich-text `document`
string and a `whiteboard` string. The module offers these operations:

- `createFile` inserts a record and returns its new id.
- `getFiles` lists a team's records, newest first.
- `getFileById` reads one record.
- `updateDocument` overwrites the `document` field.
- `updateWhiteboard` merges an incoming whiteboard snapshot into the stored one on the server.

The merge is the interesting part. Take the parsed stored snapshot and the
parsed incoming one. If both have an `elements` list (an empty list counts),
the handler fills a JavaScript `Map` keyed by element id. It seeds the map
with the stored elements. Then each incoming element replaces its map entry
unless the entry's normalised version `(version || 0)` is strictly higher, so
ties go to incoming. The merged list is the map's values in insertion order.
The `files` maps are merged by object spread, and incoming entries win. The
handler writes the printed `{elements, files}`. In every other case it writes
the incoming text verbatim.

Layout:

- `wrappers.dfy`, module `Wrappers`: `Option` and `Outcome`.
- `whiteboard_merge.dfy`, module `WhiteboardMerge`: the element and scene datatypes. It also holds the reference definition `MergedElements` (for each key in insertion order, the element the map holds for it) and `MergeFiles`. `Merge` is the choice between the merge path and the fallback. `ElementMap` is the JavaScript `Map`: its entries and its key insertion order. The method `MergeElements` runs the two loops of the source over an `ElementMap` and is proved to compute `MergedElements`.
- `merge_properties.dfy`, module `MergeProperties`: lemmas stating what the merge guarantees.
- `files_table.dfy`, module `Files`: the class `FilesTable`. Its field `records` maps record id to record, and each method of the source is a method on the class.

Record ids come from a counter (`nextId`), so a larger id means a later
creation. `getFiles` sorts by creation time descending (`order('desc')`), and
in this model that is descending id. JSON parsing and printing are not part of
this model. `UpdateWhiteboard` receives them as the parameters `parse` (None
when `JSON.parse` throws) and `stringify`. A mutation that throws is modelled
as a `Fail` outcome that leaves the table unchanged, because a Convex mutation
runs as one transaction. The handlers return the result of `ctx.db.patch`,
which is `undefined`; in this model that is `Pass`.

Three things the merge in the code does not do:

- The code has no sticky deletion and no `updated`-timestamp tie-break. At equal versions the incoming element always wins (line 65).
- The code merges `files` as a plain union. It never drops unreferenced assets (line 71).
- The code does not upgrade a legacy bare-array snapshot. Whenever either side lacks `elements`, it stores the incoming text as it is (line 83).

The only caller among the repository's files, `Canvas.tsx`, sends
`JSON.stringify(elements)`, which is a bare array. For that caller the
incoming side never has `elements`, so every save from it takes the fallback
path. This model covers the handler for all inputs, not just that caller.

## Model

| member | source | states |
|---|---|---|
| `WhiteboardMerge.MergeElements` | convex/files.tsx:58-74 | Running the seeding loop and the incoming loop over an id-keyed map and its insertion order, then reading the values out, yields exactly the reference merge `MergedElements`. |
| `WhiteboardMerge.SeedAllHolds` | convex/files.tsx:58-61 | After the seeding loop, the map's keys are exactly its insertion order. That order lists each stored id once, in first-occurrence order, and each key holds the last stored element with that id. |
| `WhiteboardMerge.AdmitAllHolds` | convex/files.tsx:58-68 | After the incoming loop, the map's keys are still exactly its insertion order. That order is the seeded order with each new incoming id appended once, and each key holds `Resolve`'s entry for it. |
| `WhiteboardMerge.ValuesAreMerged` | convex/files.tsx:58-74 | Reading the map out after both loops yields the reference merge `MergedElements`. |
| `WhiteboardMerge.LastWith` | convex/files.tsx:59-61 | After seeding, a key has an entry exactly when some stored element carries that id. The entry is one of the stored elements with that id. |
| `WhiteboardMerge.Resolve` | convex/files.tsx:62-68 | After the incoming loop, a key has an entry exactly when it had one before or some incoming element carries it. The entry is the previous one or an incoming element with that id. |
| `WhiteboardMerge.Dedup` | convex/files.tsx:58-68 | Map insertion order never repeats a key, and it holds exactly the keys that were set. |
| `WhiteboardMerge.Merge` | convex/files.tsx:52-84 | The merge path is taken exactly when both sides have `elements` (an empty list included), and it always produces `{elements, files}`. Otherwise there is no merge. |
| `MergeProperties.ResolveReachesTop` | convex/files.tsx:62-68 | With repeated incoming ids allowed: the entry for an id stays as seeded when its version is above every incoming element with that id. Otherwise it ends as the last incoming element with that id that carries their highest version. |
| `MergeProperties.ResolveIdempotent` | convex/files.tsx:62-68 | Running the incoming loop a second time over the same list leaves every entry as the first run left it. |
| `MergeProperties.MergedIds` | convex/files.tsx:58-74 | The merged ids are unique, and they are exactly the stored ids together with the incoming ids. |
| `MergeProperties.MergedLookup` | convex/files.tsx:58-74 | For every id, the merged list's element with that id is the entry the map ends up holding for it. |
| `MergeProperties.MergedOrder` | convex/files.tsx:58-74 | With unique stored ids, the merged list first holds the stored ids in stored order, so a replaced element keeps its place. Then come the incoming ids that were not stored, in incoming order, each once. |
| `MergeProperties.StoredOnlyKept` | convex/files.tsx:59-67 | A stored element whose id the incoming side does not mention stays unchanged at its position. |
| `MergeProperties.IncomingOnlyInserted` | convex/files.tsx:62-67 | An incoming element whose id is not stored is inserted exactly as it came. |
| `MergeProperties.SharedIdResolved` | convex/files.tsx:63-67 | For an id on both sides, the incoming element wins when its normalised version is at least the stored one, so ties go to incoming. Otherwise the stored element stays. Either way it sits at the stored position. |
| `MergeProperties.MergedVersionIsMax` | convex/files.tsx:65 | For an id on both sides, the merged normalised version is the larger of the stored and incoming ones. |
| `MergeProperties.MergedVersionDominates` | convex/files.tsx:59-67 | This holds even with repeated ids. The merged element for an id is the seeded stored entry or one of the incoming elements with that id, and its normalised version is at least each of theirs. |
| `MergeProperties.MergeNeverLowersVersion` | convex/files.tsx:65 | With unique stored ids, every stored id survives at its position, and its normalised version never goes down. |
| `MergeProperties.MergeNothingIncoming` | convex/files.tsx:56-74 | An empty incoming list gives back the stored list unchanged. The merge path is still taken, and the result is `{stored elements, merged files}`. |
| `MergeProperties.MergeIntoEmpty` | convex/files.tsx:58-74 | An empty stored list gives back the incoming list unchanged. |
| `MergeProperties.MergedFilesUnion` | convex/files.tsx:71 | The merged files' keys are the union of stored and incoming keys. On a collision the incoming asset wins, otherwise the stored asset stays, and a missing side counts as empty. |
| `MergeProperties.MergeIdempotent` | convex/files.tsx:56-76 | Merging the same incoming snapshot again into the merge result changes nothing, both elements and files, for any ids, repeated or not. |
| `Files.NewWhiteboard` | convex/files.tsx:73-83 | The text written is the printed `{merged elements, merged files}` when both sides have `elements`; otherwise it is the incoming text verbatim. |
| `Files.FilesTable.GetFileById` | convex/files.tsx:90-98 | Gives the record stored under the id, or None when there is none. |
| `Files.FilesTable.CreateFile` | convex/files.tsx:4-17 | Inserts a record equal to the arguments under a new id, later than every existing id, and returns it. No other record changes. |
| `Files.FilesTable.GetFiles` | convex/files.tsx:19-31 | Returns exactly the records whose `teamId` matches, each with its id, in strictly descending creation order. |
| `Files.FilesTable.UpdateDocument` | convex/files.tsx:33-42 | Changes only the `document` field of the target record. An unknown id fails and changes nothing. |
| `Files.FilesTable.PatchWhiteboard` | convex/files.tsx:78 | Changes only the `whiteboard` field of the target record. An unknown id fails and changes nothing. |
| `Files.FilesTable.UpdateWhiteboard` | convex/files.tsx:44-86 | If the stored or the incoming text fails to parse, the outcome is `MalformedJson` and the table is unchanged. If the id is unknown, the outcome is `NoSuchRecord` and the table is unchanged. Otherwise only the record's `whiteboard` field changes, to the merge or to the incoming text. A missing or empty stored whiteboard counts as no scene. |

## Left out

- JSON text: `JSON.parse` and `JSON.stringify` (lines 52-53, 78) are parameters. Their behaviour, and the exact text written on the merge path, are not modelled.
- JavaScript values outside the `Scene` and `Element` datatypes are not modelled. This covers non-string element ids, numeric versions that are fractional, NaN or non-numeric, elements that are not objects, and an `elements` property that is truthy but not an array. Versions are unbounded integers, not doubles.
- Convex runtime: argument validators (`v.string()`, `v.id('files')`), the id format, `_creationTime` and the transaction machinery are not modelled. Ids are counter values, and the creation order is the id order.
- Concurrency: two clients racing on the read-modify-write of `updateWhiteboard` are not modelled. Each call runs as one atomic step on the table.
- Key order inside the printed `files` object is not modelled; only its keys and values are.
- Sticky deletion, the `updated` tie-break, orphaned-asset removal and legacy upgrade are not modelled, because the code has none of them.
- The canvas front end (pointer sampling, stroke preview, the drawing-state fast path and the debounced save) is not part of this model. Neither are authentication routes, middleware, layout and browser tests.
- MergeProperties.MergedOrder: assumes unique stored ids, which the code does not check. With repeated stored ids, the seeding loop keeps the last duplicate at the first one's place; `MergedLookup` and `MergedVersionDominates` cover that case.
- MergeProperties.StoredOnlyKept: assumes unique stored ids, for the same reason.
- MergeProperties.MergeNeverLowersVersion: assumes unique stored ids. With repeated stored ids, an earlier duplicate with a higher version is overwritten during seeding.
- MergeProperties.MergeNothingIncoming: assumes unique stored ids. With repeats, the result has each stored id once, at its first position, and that position holds the id's last duplicate.
- MergeProperties.SharedIdResolved: assumes unique ids on both sides. With repeated incoming ids, each later occurrence is compared with the entry the earlier ones left; `Resolve` and `MergedVersionDominates` cover that case.
- MergeProperties.MergedVersionIsMax: assumes unique ids on both sides, for the same reason.
- MergeProperties.IncomingOnlyInserted: assumes unique incoming ids.
- MergeProperties.MergeIntoEmpty: assumes unique incoming ids.
