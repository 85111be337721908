# A model of the LabNETCONF device engine

LabNETCONF simulates NETCONF/RESTCONF devices. This project models its engine, without the
transports, and proves what the engine promises:

- **Configuration trees** (`Text`, `Paths`, `PathGrammar`, `Values`, `Schema`, `SchemaLaws`, `Edit`,
  `Node`, `EditValidity`, `ValidityLaws`, `EditLaws`, `DeleteLaws`, `MergeLaws`, `ApplyLaws`, `Diff`,
  `DiffLaws`): path-addressed merge, replace and delete on recursive values, schema validation, the path
  parser and printer, and the diff. The main results say exactly when an edit is accepted and when it
  keeps a tree valid, when a write reads back or a deletion succeeds and what each leaves alone, what a
  merge does to lists of every kind, that it is idempotent and keeps the rest, that a valid tree holds
  values of the declared types and nothing else is asked of it, which texts are paths, that parsing
  inverts printing, and when a diff is empty, truthful and complete.
- **The datastore triple** (`Datastore`, `DatastoreLaws`): running, candidate and startup under per-store
  locks, as in sections 7.5, 7.6 and 8.3 of RFC 6241. Each call has its exact condition and effect. Over
  every run: the stores stay valid, a lock excludes everyone else, a locked edit is published as it was
  made, a backup restores, and the generation counts publications.
- **Live reconfiguration** (`PublishSweep`, `Sessions`, `SessionLaws`, `Admission`, `Credentials`):
  publishers that sweep against newcomers that recheck, as atomic steps in every interleaving. Sessions
  match the users in force, a lock has one live owner and protects its store, admitted connections fit
  the list in force, bound SSH connections hold live credentials, and nobody whose data is unchanged is
  closed.
- **Framing** (`Framing`, `FramingLaws`): the delimiter and chunk codecs of sections 4.3 and 4.2 of RFC
  6242, from byte loops to round trips, cut-short streams and whole conversations.
- **The control plane** (`Idempotency`, `CacheLaws`, `WalkDiff`, `Pipeline`, `PipelineLaws`, `Engine`):
  the idempotency cache as a linked list that refines a sequence and keeps the recently used, the
  structural diff as an invertible patch, plan, apply and reset with their exact conditions and effects,
  the active state as a replay of what was installed, and which live handles survive.
- **Notifications** (`Ring`): the record ring and its parked waiters, with every channel's single
  result accounted for as a token, and the result each waiter gets.

Functions say what an operation computes; methods and classes keep the source's loops, arrays, links
and fields and are proved equal to those functions; lemmas say what follows. `hide` statements inside proofs only narrow what the verifier unfolds, and every lemma carries
`{:induction false}`, so no proof rests on hypotheses that the verifier adds by itself.

Facts about the code that the theorems make explicit:

- `Write1_0` accepts a message that ends in `]]>`, and such a message does not read back
  (`Framing.RoundTrip10` is an if-and-only-if on that).
- A successful edit checks only the value at its own path. It can leave a tree that no longer
  validates, by creating a list entry whose numeric key holds text
  (`EditValidity.NumericKeyIsBroken`) or by turning a text leaf into a list
  (`EditValidity.KeyedLeafIsBroken`); `EditValidity.WriteValidIff` gives the exact condition for every
  path.
- A write whose last step is named like a predicate of the step before it reads back only if it
  writes the predicate's own text (`EditLaws.RekeyReadsBackIff`, `EditLaws.RekeyedEntryIsLost`).
- Deleting a key of the entry it goes through hides the entry: its other fields no longer read, and
  the next entry with the same keys answers instead (`DeleteLaws.KeyDeletionHidesAField`,
  `DeleteLaws.KeyDeletionLetsTheNextAnswer`, `DeleteLaws.UnkeyedEntryIsHidden`). Writing another text
  over the key does the same (`DeleteLaws.RekeyedEntryIsHidden`).
- `equal` compares number-like texts as numbers, and a null field with a missing one. A null field in
  the first tree hides a new value in the second, so the comparison is not symmetric
  (`DiffLaws.NullHidesANewValue`, `DiffLaws.EqualNumeralsAreLost`). `Diffs.EqualDecidesIff`,
  `Diffs.EqualDecidesAllIff` and `Diffs.EqualIsSymmetricIff` say for which first trees it decides
  equality and can be turned round. So a commit, a check for a clean candidate and the choice to keep a
  handle can all miss such a change (`Pipeline.ChangedProfileIsKept`).
- A text such as "nan" parses as a NaN and equals nothing, not even itself
  (`Diffs.EqualIsReflexiveIff`, `Diffs.NanEqualsNothing`). A store that holds one is dirty right after
  every commit and discard and refuses direct writes (`Datastore.NanStoreIsDirty`,
  `Datastore.NanBlocksWrites`), a profile with one loses its handle on every apply
  (`Pipeline.NanProfileIsRebuilt`), and the diff of such a tree with itself is not empty
  (`DiffLaws.NanIsAlwaysReported`).
- A keyed step that already stands on a list picks an entry whatever the step is called, so the path of
  a leaf can read a map (`ValidityLaws.MisnamedStepReadsAnEntry`).
- A merge never takes an item out of a leaf-list and appends every scalar it brings, repeated ones
  included (`MergeLaws.MergeListsAppends`). A map without a key is appended too, but a later item keyed
  by the text of its number is merged into it (`MergeLaws.KeylessMapIsAbsorbed`).
- A declared list takes scalar items, but not a list of scalars as an item
  (`ValidityLaws.NestedScalarsAreRefused`): validation asks the declared type of every other level of
  nested lists (`ValidityLaws.ValidIffAllFit`).
- For a leaf-list the diff reports a create or a delete at the list's own path, although the path is
  there before and after (`DiffLaws.PlainLeafListChanges`, `DiffLaws.LeafListTruthfulIff`).
- The eviction on a revision conflict never finds anything to evict
  (`Pipeline.ConflictEvictsNothing`).

## Model

| member | source | states |
|---|---|---|
| `Paths.ParsePrint` | internal/yangtree/path.go:31-112 | For every well-formed path, parsing its text gives the path back with single quotes removed from predicate values |
| `Paths.PrintIsInjective` | internal/yangtree/path.go:91-112 | Two well-formed quote-free paths with the same text are the same path |
| `Paths.ParsePath` | internal/yangtree/path.go:31-88 | The index loop accepts exactly the grammar and yields the path it denotes, or nothing on any malformed text |
| `Paths.PathString` | internal/yangtree/path.go:91-112 | The builder loop writes exactly the text that the round trip is about |
| `Paths.WriteKeys` | internal/yangtree/path.go:91-112 | The inner loop appends the quoted predicates, in order, to what was there |
| `Paths.ReadIdentAt` | internal/yangtree/path.go:168-185 | The scan takes the longest identifier at an index and stands right after it |
| `Paths.ReadKeyValueAt` | internal/yangtree/path.go:212-238 | A quoted value ends at the same quote, a bare one at the bracket; unterminated and empty bare values fail |
| `Paths.ReadKeyAt` | internal/yangtree/path.go:187-210 | One bracketed predicate is read and the index stands after its bracket |
| `PathGrammar.ParseIff` | internal/yangtree/path.go:31-88 | A text parses to a path exactly when, between white space, it spells the path by the grammar (module, colon, steps, predicates bare or in either quotes), or is blank and the path is the root; every other text is refused |
| `PathGrammar.TrimIs` | internal/yangtree/path.go:31-37 | Trimming takes exactly the white space at both ends |
| `Values.ListIndexIs` | internal/yangtree/value.go:259-270 | The entry found is the first map entry that carries every key, and no other |
| `Values.FindEntry` | internal/yangtree/value.go:259-270 | The scan returns the first matching entry or none |
| `Values.MatchNeedsConsistent` | internal/yangtree/value.go:246-257 | Some entry can carry a set of predicates only if no field is asked for two values, and then the entry written with them does |
| `Values.OverlayValue` | internal/yangtree/value.go:295-301 | An entry made from consistent keys holds each key's value as text |
| `Values.KeysForItemPrefers` | internal/yangtree/value.go:272-293 | An item is told apart by the first of name, id, index and key it has, else by some text field, and by nothing exactly when it has no text field |
| `Values.ScalarKeyMatches` | internal/yangtree/value.go:189-257 | A predicate matches a scalar field exactly when it is the text itself, the decimal numeral of the number, true or false, or the text of a null |
| `Edits.WalkGet` | internal/yangtree/node.go:169-210 | The reading loop returns what the recursive read returns, a keyed step on a list it already stands on included |
| `Edits.MergeInto` | internal/yangtree/edit.go:314-349 | Merging map by map in any key order gives the one merged value |
| `Edits.MergeListInto` | internal/yangtree/edit.go:351-373 | The loop merges keyed items into their first match and appends all others, in order, as the list laws of `MergeLaws` describe |
| `Edits.PutLoop` | internal/yangtree/edit.go:98-154 | Descending by cursor, creating what is missing, and writing the last step gives the recursive write, errors included |
| `Edits.DeleteLoop` | internal/yangtree/edit.go:188-224 | Descending by cursor and removing the last step gives the recursive removal, with not-found wherever the path breaks off |
| `Edits.RemoveLast` | internal/yangtree/edit.go:198-223 | A field or the first matching entry goes, and nothing else |
| `Nodes.Node.Put` | internal/yangtree/edit.go:71-109 | The root becomes the written tree, which `ApplyLaws` and `EditLaws` describe, or stays as it was with the error |
| `Nodes.Node.DeleteAt` | internal/yangtree/edit.go:172-224 | The root becomes the tree without the path, or stays as it was with the error |
| `Nodes.Node.Apply` | internal/yangtree/edit.go:33-69 | Unknown and read-only paths are refused at the edit's own path; a failed edit changes nothing |
| `EditValidity.WriteValidIff` | internal/yangtree/edit.go:71-240 | A successful merge or replace at any path below the root of a validating tree leaves a validating tree if and only if every place on its way takes what the write puts there, read off schema, path, value and tree beforehand |
| `EditValidity.PutStepsValidIff` | internal/yangtree/edit.go:252-312 | The same equivalence at every depth of the descent |
| `EditValidity.PutOnLeafValidIff` | internal/yangtree/edit.go:111-170 | A predicate on a scalar leaf leaves a valid tree exactly when the leaf is of type empty, held no items and is given a null |
| `EditValidity.DeleteKeepsValid` | internal/yangtree/edit.go:172-224 | Deletion keeps a validating tree validating, on every schema |
| `EditValidity.ApplyKeepsValid` | internal/yangtree/edit.go:33-240 | Where declared ancestors are containers or lists, patterns and ranges are not on containers, predicates sit on lists and created keys are plain text, a successful edit keeps a validating tree validating |
| `EditValidity.NumericKeyIsBroken` | internal/yangtree/edit.go:252-312 | An accepted edit on a list with a numeric key that leaves a tree failing validation |
| `EditValidity.KeyedLeafIsBroken` | internal/yangtree/edit.go:111-170 | In every validating tree, a predicate on a declared text leaf is accepted and leaves a tree failing validation |
| `ValidityLaws.ReadIsTyped` | internal/yangtree/schema.go:128-223 | In a validating tree, whatever a path reads at a declared place is, type by type and with literal bounds, of the declared type, meets pattern and range unless a list, and is a map if the path asks for an entry; no place on the way or at its end is a computed leaf and no step starts from a list |
| `ValidityLaws.CheckedIsTyped` | internal/yangtree/schema.go:128-223 | checkValue accepts exactly the values of the declared type, with literal bounds, that meet pattern and range |
| `ValidityLaws.LeafReplaceSucceedsIff` | internal/yangtree/edit.go:33-170 | A replace at a declared writable leaf or leaf-list succeeds exactly when the value is of the declared type and meets pattern and range, and no map or leaf-list is written under a predicate; else it is refused as invalid |
| `ValidityLaws.ValidIffAllFit` | internal/yangtree/node.go:213-283 | Any value validates exactly when the value at every declared position it reaches, not below a leaf or leaf-list, is of the type declared there; of directly nested lists every other level counts |
| `ValidityLaws.NestedScalarsAreRefused` | internal/yangtree/node.go:220-283 | A declared list takes a scalar item and refuses a list that holds one |
| `ValidityLaws.MisnamedStepReadsAnEntry` | internal/yangtree/node.go:180-196 | A keyed step that stands on a list reads a map at the path of a text leaf of a validating tree |
| `SchemaLaws.NewSchema` | internal/yangtree/schema.go:31-80 | The loop files each leaf under its path and nothing else, and refuses exactly the lists with a blank, malformed or repeated path |
| `SchemaLaws.SchemaKeyIsInjective` | internal/yangtree/path.go:120-134 | Different places of well-formed paths have different schema strings |
| `SchemaLaws.KnownIff` | internal/yangtree/schema.go:90-115 | For a schema built from leaves, the known paths are exactly the root and the paths at or above a declared one, predicates aside |
| `SchemaLaws.ExtendsIff` | internal/yangtree/schema.go:90-115 | A schema string that goes on after a path's with a slash, or after its bare module, is exactly that of a path below it |
| `ApplyLaws.OutcomeIsExact` | internal/yangtree/edit.go:33-240 | Every outcome of an edit: unknown exactly at unknown paths, not writable exactly at computed or read-only leaves unless deleting, not found exactly where a deletion finds nothing, done exactly when a write has the shape its path asks for and the schema takes it there, else invalid |
| `ApplyLaws.WriteSucceedsIff` | internal/yangtree/edit.go:71-240 | A write succeeds exactly when what it stores has the shape its path asks for and the schema takes it there and below |
| `ApplyLaws.RootMergeIsByModule` | internal/yangtree/edit.go:71-85 | After a merge at the root a module only the tree has reads as before, one only the value has reads as the value, one both have reads as the merge of the two, and there is no other |
| `ApplyLaws.RootMergeReadsBack` | internal/yangtree/edit.go:71-85 | Every scalar of a clean overlay merged at the root reads back |
| `ApplyLaws.RootMergeKeepsRest` | internal/yangtree/edit.go:71-85 | A merge at the root keeps every value the overlay is silent about |
| `ApplyLaws.RootMergeIsIdempotent` | internal/yangtree/edit.go:71-85 | Merging a clean overlay at the root again is accepted and changes nothing |
| `ApplyLaws.RootReplaceIsTheValue` | internal/yangtree/edit.go:71-85 | After a replace at the root every path reads what the value holds there |
| `ApplyLaws.RootDeleteLeavesNothing` | internal/yangtree/edit.go:172-176 | A deletion of the root always succeeds, and then nothing reads |
| `EditLaws.WriteReadsBackIff` | internal/yangtree/edit.go:111-154 | A merged or replaced value reads back, with its entry's predicates overlaid, if and only if each step's predicates are consistent, a list entry comes to hold a map, and no key is written over with another text; predicates that later steps descend through must not look like rendered maps or lists |
| `EditLaws.WriteReadsBack` | internal/yangtree/node.go:169-210 | The read-back law for whole trees, module paths included |
| `EditLaws.RekeyReadsBackIff` | internal/yangtree/edit.go:111-154 | A field written over a predicate of its own entry reads back exactly when its text is the predicate's |
| `EditLaws.NothingBelowAKey` | internal/yangtree/node.go:169-210 | A path that descends through one of its own predicates reads nothing in any tree, if that predicate does not look like a rendered map or list |
| `EditLaws.RekeyedEntryIsLost` | internal/yangtree/edit.go:111-154 | Writing another text over the key of the entry being created makes it unreadable at the written path |
| `EditLaws.StandingIsRead` | internal/yangtree/edit.go:252-312 | What a merge is merged into is what reads at the path; where nothing reads and no step is named like a predicate of the step before it, it is nothing or an entry of just its predicates; no step starts from a list |
| `EditLaws.PutStepsFrame` | internal/yangtree/edit.go:252-312 | A value readable on a path that diverges by a name or by a conflicting predicate is unchanged by the write, if no step of the write starts from a list or is named like a predicate of the step before it |
| `EditLaws.WriteFrame` | internal/yangtree/edit.go:71-154 | The frame law for whole trees, for merge and replace, module paths included: other modules always read as before, and paths of the same module under the same two conditions |
| `EditLaws.PutFrameIsExact` | internal/yangtree/edit.go:252-312 | With consistent predicates as well, a diverging path that read nothing reads something afterwards exactly when it names a predicate of an entry the write created, and then its text |
| `EditLaws.PutTouchesOneEntry` | internal/yangtree/edit.go:252-312 | A keyed step of a write changes or appends one entry, and every other item of the list, of whatever kind, stays in its place |
| `DeleteLaws.DeleteSucceedsIff` | internal/yangtree/edit.go:172-224 | A deletion succeeds exactly when its path reads and no step of it starts from a list |
| `DeleteLaws.DeletedIsGoneIff` | internal/yangtree/edit.go:198-223 | After a deletion the path no longer reads exactly when it named a field, or the only entry with its keys, or a key of the only entry with its keys; predicates that later steps descend through must not look like rendered maps or lists |
| `DeleteLaws.DeleteFrame` | internal/yangtree/edit.go:252-312 | A deletion leaves every path that diverges from it by a name or by a conflicting predicate as it was, readable or not; if it takes a key away, every path that diverges from the path to the entry |
| `DeleteLaws.UnkeyedEntryIsHidden` | internal/yangtree/edit.go:198-223 | After a key is deleted, every path through the entry reads what it would read had the whole entry been deleted |
| `DeleteLaws.KeyDeletionHidesAField` | internal/yangtree/edit.go:198-223 | Deleting the key of the only entry takes its other field out of reach |
| `DeleteLaws.KeyDeletionLetsTheNextAnswer` | internal/yangtree/edit.go:198-223 | Deleting the key of the first of two entries leaves the path reading the second's |
| `DeleteLaws.RekeyedEntryIsHidden` | internal/yangtree/edit.go:111-154 | After another text is written over a key, every path through the entry reads as if the entry were deleted, or nothing if it was new |
| `DeleteLaws.RekeyedAlikeKeepsFields` | internal/yangtree/edit.go:111-154 | If the key's own text is written, the entry's other fields read as before |
| `DeleteLaws.DeleteIsExact` | internal/yangtree/edit.go:172-224 | Success, removal, frame and the hidden entry together for whole trees, other modules included |
| `DeleteLaws.DeleteTouchesOneEntry` | internal/yangtree/edit.go:198-223 | A keyed step of a deletion takes one entry out or changes it, and every other item of the list, of whatever kind, stays in order |
| `DeleteLaws.ModuleDeleteIsExact` | internal/yangtree/edit.go:172-183 | Deleting a module succeeds exactly when it is there, and takes away exactly what reads below it |
| `MergeLaws.MergeIsIdempotent` | internal/yangtree/edit.go:314-373 | Merging a null-free overlay whose lists each hold entries with distinct texts in one key field (name, id, index, key or another) twice is merging it once, for every destination |
| `MergeLaws.OverlayScalarReadsBack` | internal/yangtree/edit.go:314-373 | Every scalar of such an overlay reads back after the merge at its own path, with list entries addressed by their key field |
| `MergeLaws.OverlayReadsBack` | internal/yangtree/edit.go:328-349 | Whatever the overlay holds at a path whose predicates are its own key fields stands in the merged tree at that path, merged into something |
| `MergeLaws.NullMerge` | internal/yangtree/edit.go:328-349 | Merging such an overlay into nothing copies it |
| `MergeLaws.MergeListsEntry` | internal/yangtree/edit.go:351-373 | When entries distinct in a key field are merged into any list, the first entry of a key stays in its place, merged with the overlay's entry of that key if there is one and unchanged otherwise |
| `MergeLaws.MergedStep` | internal/yangtree/edit.go:314-349 | One step of a read after a merge, by field or by key, gives the destination's value merged with the overlay's value under that step, or the destination's own, where the overlay has the destination's shape |
| `MergeLaws.MergeKeepsRest` | internal/yangtree/edit.go:314-373 | A merge keeps every value of the destination, on paths whose predicates name one key field, that an overlay with entries distinct in that field is silent about |
| `MergeLaws.MergeListsAppends` | internal/yangtree/edit.go:351-360 | Merging scalars, lists or keyless maps into any list appends them all: a leaf-list keeps its items and gains every one of the overlay's |
| `MergeLaws.MergeListsPlaces` | internal/yangtree/edit.go:351-373 | Whatever the lists hold, the destination's items keep their places, unchanged unless a keyed item of the overlay matches them |
| `MergeLaws.MergeListsKeepsLoose` | internal/yangtree/edit.go:351-373 | Whatever the lists hold, the scalars, lists and keyless maps that no keyed item of the overlay matches stand in the result in order and exactly as often as in both lists together |
| `MergeLaws.ScalarsAreLoose` | internal/yangtree/edit.go:351-360 | No scalar and no list is ever matched by a keyed item |
| `MergeLaws.KeylessMapIsAbsorbed` | internal/yangtree/edit.go:351-373 | A keyless map is not safe from that: an item keyed by the text of its number takes its place |
| `Diffs.EqualIsEquality` | internal/yangtree/value.go:203-244 | On trees without number-like texts, equal decides equality with a first tree that has no null field; lists may hold anything |
| `Diffs.EqualDecidesIff` | internal/yangtree/value.go:203-244 | Among trees without number-like texts, equal decides equality with a given first tree exactly when no map field of it is null |
| `Diffs.EqualDecidesAllIff` | internal/yangtree/value.go:203-244 | Among all trees, it does so exactly when no field of the first is null, no text of it is a NaN, and no leaf of it shares its number with another scalar |
| `Diffs.EqualIsSymmetricIff` | internal/yangtree/value.go:203-244 | The comparison with a given first tree can be turned round exactly when no map field of it is null, or it holds a NaN text |
| `Diffs.ScalarsEqualIff` | internal/yangtree/value.go:227-243 | Two different scalars compare as equal exactly when both are numbers, not both integers, and the same number, which is not a NaN |
| `Diffs.NullFieldHidesAValue` | internal/yangtree/value.go:204-215 | Every tree with a null field and no NaN text equals a different tree, which holds a value the first does not and does not equal the first |
| `Diffs.EqualIsReflexiveIff` | internal/yangtree/value.go:203-244 | A value equals itself exactly when no text of it parses as a NaN |
| `Diffs.NanEqualsNothing` | internal/yangtree/value.go:237-242 | A tree that holds a NaN text equals no tree |
| `Diffs.DiffWalk` | internal/yangtree/node.go:292-379 | The walk with its index map and order list appends exactly the specified changes |
| `Diffs.DiffEntries` | internal/yangtree/node.go:316-367 | List entries are paired by id, the last of an id standing for it, each id visited once |
| `Diffs.LastWithName` | internal/yangtree/node.go:324-347 | Among entries with distinct quote-free names an id finds the entry of that name or none |
| `DiffLaws.NothingReportedIffAgree` | internal/yangtree/node.go:286-379 | On null-free values without number-like texts, whose lists lie below a module's top level and hold entries with distinct quote-free names: nothing is reported exactly when the values agree up to the order of list entries |
| `DiffLaws.ReportsAreTruthful` | internal/yangtree/node.go:292-379 | On the same values, a create names a path absent before, a delete one absent after, a replace one present in both and different |
| `DiffLaws.DifferingLeafIsReported` | internal/yangtree/node.go:292-379 | On the same values, a leaf of either that the other lacks or has differently lies at or under a reported path |
| `DiffLaws.DiffIsExact` | internal/yangtree/node.go:286-290 | All three laws together for whole trees of that kind |
| `DiffLaws.EqualNumeralsAreLost` | internal/yangtree/value.go:237-242 | Two texts that parse to one number differ without being reported |
| `DiffLaws.NullHidesANewValue` | internal/yangtree/value.go:204-215 | A null field in the first tree hides a new value in the second from equal and from Diff, and the comparison is not symmetric |
| `DiffLaws.ChangesShowIff` | internal/yangtree/node.go:292-295 | Among trees without number-like texts, the first trees from which every change shows are exactly those without null fields; from every other Diff loses some change altogether |
| `DiffLaws.NanIsAlwaysReported` | internal/yangtree/node.go:292-295 | A tree that holds a NaN text is reported as changed against itself |
| `DiffLaws.LeafListChanges` | internal/yangtree/node.go:316-367 | For any two lists of scalars that are not equal outright, Diff compares them text by text, the last item that prints so standing for it, and reports each difference at the list's own path |
| `DiffLaws.PlainLeafListChanges` | internal/yangtree/node.go:316-367 | For items that are neither null nor number-like: a create exactly when some text is new, a delete exactly when one is gone, a replace exactly when a text both print stands for different items, and nothing else |
| `DiffLaws.LeafListTruthfulIff` | internal/yangtree/node.go:316-367 | For such items, what Diff says of the list's path is true exactly when it reports no create and no delete, and a replace only if the lists hold different items |
| `Datastore.StepKeepsValid` | internal/datastore/datastore.go:156-292 | No call takes three validating stores out of validity, if its edit fits the schema as `EditValidity.ApplyKeepsValid` asks, and a commit on them is never refused for validation |
| `Datastore.RunKeepsValid` | internal/datastore/datastore.go:156-292 | The same after every prefix of every run of fitting calls |
| `Datastore.LockExcludes` | internal/datastore/datastore.go:370-379 | While a session holds a store's lock, a call for another session or none changes neither the store nor its lock |
| `Datastore.LockExcludesOverRun` | internal/datastore/datastore.go:156-332 | The same over every run of such calls |
| `Datastore.CallLocks` | internal/datastore/datastore.go:294-332 | A call adds no lock but the one it asks for, and an unlock never leaves its caller's lock behind |
| `Datastore.GenerationCountsPublications` | internal/datastore/datastore.go:199-279 | Over every run the generation rises by exactly the successful commits and copies between distinct stores into running or startup |
| `Datastore.WriteRunningKeepsClean` | internal/datastore/datastore.go:171-197 | A direct write to running leaves running and candidate equal, if both are under one schema, neither held number-like texts and running no null field |
| `Datastore.CandidateWorkIsPrivate` | internal/datastore/datastore.go:156-169 | Any run of edits, discards, locks and copies into the candidate leaves running, startup and the generation alone |
| `Datastore.CommitOrDiscard` | internal/datastore/datastore.go:252-292 | After such a run a commit publishes exactly the work and a discard undoes exactly it; both leave candidate and running equal, and the candidate clean exactly when it holds no NaN text |
| `Datastore.NanBlocksWrites` | internal/datastore/datastore.go:340-342 | While running holds a NaN text the candidate is dirty whatever it holds, and every direct write to running is refused |
| `Datastore.NanStoreIsDirty` | internal/datastore/datastore.go:281-292 | A store with the text "nan" is dirty right after a discard |
| `Datastore.EditClone` | internal/datastore/datastore.go:188-195 | Editing a clone through the tree object gives the edited tree or the error |
| `Datastore.Handle.constructor` | internal/datastore/datastore.go:115-137 | A missing candidate or startup starts as a copy of running, with no locks and generation zero |
| `Datastore.Handle.Edit` | internal/datastore/datastore.go:156-169 | The handle takes the edit step of the state machine, touching only the candidate |
| `Datastore.Handle.WriteRunningIfCandidateClean` | internal/datastore/datastore.go:171-197 | Both stores are replaced or neither, and only when the candidate is clean and unlocked |
| `Datastore.Handle.Copy` | internal/datastore/datastore.go:199-230 | The handle takes the copy step that `DatastoreLaws.CopyIsExact` describes |
| `Datastore.Handle.Delete` | internal/datastore/datastore.go:232-250 | Only startup can be cleared |
| `Datastore.Handle.Commit` | internal/datastore/datastore.go:252-279 | Running becomes the candidate, and the changes reported are the difference between the old and the new running |
| `Datastore.Handle.Discard` | internal/datastore/datastore.go:281-292 | The candidate becomes running again |
| `Datastore.Handle.Lock` | internal/datastore/datastore.go:294-312 | A free or own lock is taken, another session's is not |
| `Datastore.Handle.Unlock` | internal/datastore/datastore.go:314-332 | Only the holder's lock is released |
| `DatastoreLaws.CopyIsExact` | internal/datastore/datastore.go:199-230 | A copy is done exactly when it is not cancelled, both stores are known, and they are the same or the destination's lock is free or the caller's; then the destination holds what the source held, and the other stores and all locks are unchanged |
| `DatastoreLaws.EditIsExact` | internal/datastore/datastore.go:156-169 | An edit is done exactly when it names the candidate, its lock is free or the caller's, the path parses and the edit succeeds; then the candidate is the edited tree and nothing else changes |
| `DatastoreLaws.WriteRunningIsExact` | internal/datastore/datastore.go:171-197 | A direct write is done exactly when the candidate is clean and unlocked, running's lock is free or the caller's, and both edits succeed; then both trees are edited and nothing else changes |
| `DatastoreLaws.DeleteConfigIsExact` | internal/datastore/datastore.go:232-250 | Under a schema without a leaf at the root, deleting is done exactly for startup with its lock free or the caller's; then startup is empty and nothing else changes |
| `DatastoreLaws.CommitIsExact` | internal/datastore/datastore.go:252-279 | A commit is done exactly when the candidate's and running's locks are free or the caller's and the candidate validates; then running is the candidate and the generation one higher |
| `DatastoreLaws.DiscardIsExact` | internal/datastore/datastore.go:281-292 | A discard is done exactly when the candidate's lock is free or the caller's; then the candidate is running and nothing else changes |
| `DatastoreLaws.LockIsExact` | internal/datastore/datastore.go:294-312 | A lock is granted exactly to a named session on a known store whose lock is free or its own; then the session holds it and no other lock moves |
| `DatastoreLaws.UnlockIsExact` | internal/datastore/datastore.go:314-332 | Exactly the holder releases a lock; then it is free and no other lock moves |
| `DatastoreLaws.CallFrame` | internal/datastore/datastore.go:156-332 | A refused call changes nothing, and no call changes a store it does not name |
| `DatastoreLaws.RefusalHasItsCause` | internal/datastore/datastore.go:156-332 | Each reason for a refusal is given only where it applies |
| `DatastoreLaws.HeldStoreRefusesOthers` | internal/datastore/datastore.go:370-379 | While a session holds a store's lock, no other session gets a call through that names the store |
| `DatastoreLaws.BackupRestores` | internal/datastore/datastore.go:199-230 | A store copied elsewhere and copied back is as it was, after any run of calls that do not name the backup |
| `DatastoreLaws.LockedBackupRestores` | internal/datastore/datastore.go:199-379 | The same after any run of calls whatever for other sessions, if the backup is locked |
| `DatastoreLaws.LockedEditIsPublished` | internal/ncserver/dispatch.go:112-133 | After an edit-config under the candidate's lock, any calls for other sessions and a commit, running reads every scalar of the clean configuration merged and keeps what the candidate held that it is silent about |
| `PublishSweep.StepKeepsInvariant` | internal/ncserver/server.go:71-95 | Each atomic step of publish, sweep, enter, recheck and leave keeps the protocol's invariant, whether a sweep judges by its own configuration or by the one in force |
| `PublishSweep.SweptTableFits` | internal/ncserver/server.go:71-95 | In every interleaving of any number of publishers and newcomers, once the call that published the configuration in force has swept, every rechecked row not being closed fits it |
| `PublishSweep.FittingRowStays` | internal/ncserver/server.go:71-95 | In every interleaving, a row that every published configuration takes is never closed |
| `Admission.StepKeepsInvariant` | internal/netconfssh/server.go:150-167 | Every step of publishing, of a sweep that reloads the list for each connection, and of tracking and rechecking keeps the invariant |
| `Admission.SweptAreAdmitted` | internal/netconfssh/server.go:323-331 | In every interleaving with several SetAllow calls, once the call that published the list in force has swept, every checked connection not being closed is admitted by it |
| `Admission.AdmittedStays` | internal/netconfssh/server.go:150-167 | In every interleaving, a connection that every published list admits is never closed |
| `Admission.WholeSweepIsExact` | internal/netconfssh/server.go:150-167 | A sweep that nothing interrupts closes exactly the connections the list does not admit, in whatever order it goes through them |
| `Admission.Server.SetAllow` | internal/netconfssh/server.go:150-167 | Exactly the tracked connections the new list does not admit are returned for closing |
| `Sessions.IndexIsByName` | internal/ncserver/server.go:97-113 | Users are indexed under their own names and always have an access level |
| `Sessions.Server.IndexUsers` | internal/ncserver/server.go:97-113 | The loop builds the index in which the last entry of a name wins |
| `Sessions.Server.Sweep` | internal/ncserver/server.go:78-90 | Exactly the sessions that differ from the new users in name, access, profile or handle leave the table |
| `Sessions.Server.Register` | internal/ncserver/server.go:148-166 | A session gets a new id, and is in the table exactly when it matches the users in force |
| `Sessions.Server.Drop` | internal/ncserver/server.go:215-220 | The session leaves the table and no other does |
| `Sessions.SweepRefines` | internal/ncserver/server.go:78-90 | The protocol's sweep does to the table what the server's does |
| `Sessions.RegisterRefines` | internal/ncserver/server.go:148-166 | The protocol's enter and recheck do to the table what the server's registration does |
| `Sessions.ExitRefines` | internal/ncserver/server.go:215-220 | Leaving removes exactly the session's row |
| `Sessions.SweptSessionsMatch` | internal/ncserver/server.go:130-172 | In every interleaving with several publishers, once the call that published the users in force has swept, every serving session not being closed matches them on name, access, profile and handle |
| `Sessions.SweptTableMatches` | internal/ncserver/server.go:71-95 | The same for every row of the session table |
| `Sessions.LocksHaveLiveOwners` | internal/ncserver/server.go:230-238 | On every handle ever built, each held lock belongs to a session that has registered and whose exit has not yet released that store |
| `Sessions.NoLockOutlivesItsSession` | internal/ncserver/server.go:173-184 | When no session is serving or leaving, nothing is locked on any handle |
| `Sessions.RpcKeepsLocks` | internal/ncserver/dispatch.go:12-72 | A session's calls keep every lock owned, and a session that is not read-write changes no handle |
| `Sessions.DropKeepsLocks` | internal/ncserver/server.go:230-238 | Each unlock of an exit keeps every remaining lock owned |
| `Sessions.RunKeepsAll` | internal/ncserver/dispatch.go:161-176 | Table and lock invariants hold together over every run, user replacement and handle replacement included |
| `SessionLaws.IndexNames` | internal/ncserver/server.go:97-113 | The index holds exactly the names of the list |
| `SessionLaws.IndexIsLast` | internal/ncserver/server.go:97-113 | Under a name stands the last entry of that name, with read-write for an access left empty |
| `SessionLaws.MatchesIsEquality` | internal/ncserver/server.go:79-83 | A session matches users indexed by name exactly when they hold its very entry |
| `SessionLaws.SweptTableAgrees` | internal/ncserver/server.go:71-95 | In every interleaving, once the users in force have been swept for, every row of the table and every serving session not being closed has the access, profile and handle they hold under its name |
| `SessionLaws.UndisturbedServe` | internal/ncserver/server.go:130-172 | A Serve call that nothing interrupts, for a user with a handle, is served with that user's entry and adds exactly its row |
| `SessionLaws.RpcReachesItsHandle` | internal/ncserver/dispatch.go:12-72 | A call of a serving read-write session is carried out on its own handle in its own name, and touches nothing else; any other call changes nothing |
| `SessionLaws.LocksHaveOneOwner` | internal/ncserver/server.go:230-238 | In every reachable state each held lock has exactly one owner |
| `SessionLaws.SessionLockProtects` | internal/ncserver/dispatch.go:161-176 | While a session holds a store's lock and does nothing itself, no interleaving of other sessions, control-plane calls, user replacements and new handles changes the store or takes the lock |
| `SessionLaws.UnchangedSessionStays` | internal/ncserver/server.go:71-95 | In every interleaving, a session whose entry every published set of users holds stays in the table until it leaves |
| `Credentials.CredentialIdIsInjective` | internal/netconfssh/auth.go:142-155 | Key lines with the same id have the same key material and the same options in the same order |
| `Credentials.SameIdsSameKeys` | internal/netconfssh/auth.go:117-140 | Id multisets are equal exactly when key multisets are |
| `Credentials.BuildCredentialId` | internal/netconfssh/auth.go:142-155 | The builder loop writes the length-prefixed id |
| `Credentials.CountIds` | internal/netconfssh/auth.go:127-130 | The count map holds each id's multiplicity |
| `Credentials.SameIdCounts` | internal/netconfssh/auth.go:127-139 | Counting down decides equality of the id multisets |
| `Credentials.CredentialsEqual` | internal/netconfssh/auth.go:117-140 | Credentials are equal exactly when the password bytes and the key multisets are |
| `Credentials.Server.PublishUsers` | internal/netconfssh/server.go:224-247 | Users with unchanged credentials keep their generation, all others get one nobody has had, and exactly the bound connections that are no longer current are returned for closing |
| `Credentials.Server.PasswordAuth` | internal/netconfssh/auth.go:72-82 | A password is accepted exactly when it is the user's and not empty, and the login is told the user's generation |
| `Credentials.Server.PublicKeyAuth` | internal/netconfssh/auth.go:84-97 | A key is accepted exactly when the user lists it, whatever its options, and the login is told the user's generation |
| `Credentials.Server.BindAuth` | internal/netconfssh/server.go:252-268 | Binding records user and generation on a tracked connection and asks for closing exactly when it is not current; an unreadable or zero generation closes and records nothing |
| `Credentials.GenerationReadsBack` | internal/netconfssh/auth.go:99-108 | The generation a login is given is the one binding reads |
| `Credentials.PublishExtendsLog` | internal/netconfssh/server.go:224-247 | No generation of a user ever stands for two different sets of credentials |
| `Credentials.StepKeepsInvariant` | internal/netconfssh/server.go:191-268 | Every step of authentication, binding, publishing, clearing and closing keeps the invariant |
| `Credentials.BoundConnectionsAreCurrent` | internal/netconfssh/server.go:191-268 | In every interleaving, unless the map was just cleared, a bound connection not being closed carries its user's live generation, password bytes and key multiset, and the password or key it showed would be accepted now |
| `Credentials.UnrotatedConnectionStays` | internal/netconfssh/server.go:224-247 | In every interleaving without clearing, a current connection whose user's credentials every publication leaves as they are is never closed |
| `Credentials.RotatedConnectionGoes` | internal/netconfssh/server.go:224-247 | A publication that changes or removes the user's credentials closes every connection bound under them |
| `Credentials.BindRefines` | internal/netconfssh/server.go:252-268 | The binding step does to the table what the server's binding does, and closes when that asks for it |
| `Credentials.PublishRefines` | internal/netconfssh/server.go:224-247 | The publishing step closes exactly the connections the server's publishing returns |
| `Credentials.AcceptsIffOpens` | internal/netconfssh/auth.go:72-97 | Whether a secret is accepted depends on the password bytes and the key multiset alone |
| `Framing.FirstEomIsOwn` | internal/ncframing/framing.go:41-53 | The first delimiter of a written message is its own exactly when the message neither contains it nor ends in its first half |
| `Framing.RoundTrip10` | internal/ncframing/framing.go:41-53 | A message Write1_0 accepts reads back, leaving what followed, exactly when it does not end in `]]>` |
| `Framing.ReadIsRewritten10` | internal/ncframing/reader.go:48-80 | A message read10 returns is accepted by Write1_0 and rewritten as the bytes consumed |
| `Framing.ReadsChunks` | internal/ncframing/reader.go:82-153 | Any valid chunking of a message within the limit reads back as the message and stops right after the end marker |
| `Framing.ReadIsChunks` | internal/ncframing/reader.go:82-153 | Whatever read11 accepts is one or more valid chunks and the end marker |
| `Framing.ReadsExactlyChunkings` | internal/ncframing/reader.go:82-153 | read11 returns m exactly when the stream starts with a chunking of m within the limit, and consumes exactly that |
| `Framing.RoundTrip11` | internal/ncframing/framing.go:56-72 | read11 inverts Write1_1, leaving what followed |
| `Framing.Slide` | internal/ncframing/reader.go:48-80 | The six-byte window drops its oldest byte and takes the new one |
| `Framing.Push` | internal/ncframing/reader.go:48-80 | A byte enters the window; once it is full its oldest byte spills into the message |
| `Framing.Reader.ReadToDelimiter` | internal/ncframing/reader.go:48-80 | The sliding window returns the bytes before the first delimiter and consumes through it, or fails with the right error |
| `Framing.Reader.ReadSize` | internal/ncframing/reader.go:118-139 | The digit loop reads the size of at most ten digits, and its last and largest running value, even on failure, keeps to ten times the limit and to 31 bits |
| `Framing.Reader.ReadMark` | internal/ncframing/reader.go:85-117 | The bytes before a size, or the end marker, are told apart with the right error for each malformed start |
| `Framing.Reader.ReadChunked` | internal/ncframing/reader.go:82-153 | The chunk loop returns what the chunk grammar says and stands right after it |
| `Framing.Reader.SetVersion` | internal/ncframing/reader.go:27-30 | Only the version changes; buffered bytes stay |
| `Framing.Reader.ReadMessage` | internal/ncframing/reader.go:37-46 | Each version reads by its own framing; an unknown one fails without consuming |
| `Framing.Writer.Write10` | internal/ncframing/framing.go:41-53 | The frame is appended, or nothing is and the error is the one for a contained delimiter, or else for an oversized message |
| `Framing.Writer.Write11` | internal/ncframing/framing.go:56-72 | One chunk and the end marker are appended, or nothing is and the error is the one for an empty or an oversized message |
| `FramingLaws.Frame10Iff` | internal/ncframing/framing.go:41-53 | Write1_0 takes exactly the messages of up to 16777216 bytes without the delimiter |
| `FramingLaws.Frame11Iff` | internal/ncframing/framing.go:56-72 | Write1_1 takes exactly the messages of 1 to 16777216 bytes, as one valid chunk and the end marker |
| `FramingLaws.Read10IsFinal` | internal/ncframing/reader.go:48-80 | Once read10 has a message or an error other than the end of the stream, later bytes change nothing |
| `FramingLaws.Read11IsFinal` | internal/ncframing/reader.go:82-153 | The same of read11, wherever it stands in a message |
| `FramingLaws.EofIff` | internal/ncframing/reader.go:48-153 | A clean end is reported exactly on an empty stream |
| `FramingLaws.Truncated10` | internal/ncframing/reader.go:48-80 | A readable message before its delimiter, cut anywhere, is reported as cut short |
| `FramingLaws.Truncated11` | internal/ncframing/reader.go:82-153 | A message in valid chunks within the limit, cut anywhere, is reported as cut short |
| `FramingLaws.TooLargeIff` | internal/ncframing/reader.go:82-153 | A message in valid chunks is read if it is within the limit and refused as too large if not |
| `FramingLaws.ConversationReads` | internal/ncframing/reader.go:37-153 | Any number of messages back to back, each cut into valid chunks in any way, are read in order, and then comes a clean end |
| `FramingLaws.UpgradeReads` | internal/ncframing/reader.go:27-46 | After a hello before its delimiter and the switch, the reader goes on with the bytes behind it and reads every message |
| `Idempotency.OpKeepsCapacity` | internal/app/idempotency.go:38-90 | No operation repeats a key or exceeds the capacity |
| `Idempotency.RunKeepsCapacity` | internal/app/idempotency.go:38-90 | The same over every sequence of operations |
| `Idempotency.StoredIsReplayed` | internal/app/idempotency.go:38-68 | A result just stored under a non-empty key is returned to the same request and refused to another with its key |
| `Idempotency.Cache.constructor` | internal/app/idempotency.go:28-36 | An empty cache; a non-positive size means 256 |
| `Idempotency.Cache.Bypass` | internal/app/idempotency.go:135-148 | After the link updates, forward and backward links thread exactly the other entries in order |
| `Idempotency.Cache.PushFront` | internal/app/idempotency.go:92-109 | The entry becomes the head and the links thread it before all others |
| `Idempotency.Cache.Remove` | internal/app/idempotency.go:127-133 | The entry leaves map and list together |
| `Idempotency.Cache.Trim` | internal/app/idempotency.go:106-108 | The eviction loop drops entries from the tail until the capacity is met |
| `Idempotency.Cache.InsertFront` | internal/app/idempotency.go:92-109 | An entry replaces the one of its key, becomes the most recent, and the last falls off over capacity |
| `Idempotency.Cache.MoveFront` | internal/app/idempotency.go:111-125 | The entry becomes the most recent and the others keep their order |
| `Idempotency.Cache.Lookup` | internal/app/idempotency.go:38-54 | The answer and the new order refine the most-recent-first sequence |
| `Idempotency.Cache.StoreApply` | internal/app/idempotency.go:56-68 | Storing refines the most-recent-first sequence |
| `Idempotency.Cache.Evict` | internal/app/idempotency.go:70-79 | The key's entry goes, if there is one |
| `Idempotency.Cache.Clear` | internal/app/idempotency.go:81-90 | Nothing is left |
| `Idempotency.Cache.WalkForward` | internal/app/idempotency.go:14-26 | Following next from the head visits each map entry exactly once, most recent first |
| `Idempotency.Cache.WalkBackward` | internal/app/idempotency.go:14-26 | Following prev from the tail visits them in reverse |
| `CacheLaws.OperationIsExact` | internal/app/idempotency.go:38-125 | As a set of records: a lookup keeps all, an eviction takes its key's, a clearing takes all, and a store replaces its key's record and drops the last one only if the cache is full and the key new |
| `CacheLaws.GoneIsMissed` | internal/app/idempotency.go:70-90 | An evicted key, and any key after a clearing, is missed |
| `CacheLaws.RecentlyUsedStays` | internal/app/idempotency.go:92-125 | A stored result is replayed after any number of operations that name fewer other keys than the capacity |
| `CacheLaws.LookedUpStays` | internal/app/idempotency.go:38-54 | A replay counts as a use: from then on the result stays just as long |
| `WalkDiffs.PatchGivesAfter` | internal/app/mutate.go:235-293 | Applying the difference, at every depth, to what it was computed from gives what it was computed towards, nulls and arrays of different length included |
| `WalkDiffs.EditIsSymmetric` | internal/app/mutate.go:235-293 | Exchanging the documents flips every entry in place |
| `WalkDiffs.DiffIsAPatch` | internal/app/mutate.go:235-293 | The patch turns before into after, its inverse turns after into before, and it is empty exactly when they are equal |
| `WalkDiffs.WalkDiff` | internal/app/mutate.go:235-293 | The walk emits exactly the entries of the difference, no path twice |
| `WalkDiffs.DiffSteps` | internal/app/mutate.go:235-293 | The loop over keys or indices emits what lies below each of them |
| `WalkDiffs.WalkIsAPatch` | internal/app/mutate.go:235-293 | What the walk emits, read as one simultaneous patch, is invertible and exact |
| `Pipeline.SyncProfiles` | internal/app/reset.go:123-135 | A profile keeps its handle exactly when it compiles the same as before and has one; the others are noted as rebuilt |
| `Pipeline.SyncUser` | internal/app/reset.go:139-160 | A user gets its profile's handle in shared mode, else keeps its own exactly when profile and binding are unchanged |
| `Pipeline.SyncHandles` | internal/app/reset.go:113-161 | Both handle maps come out as specified, users without a profile left out |
| `Pipeline.CachedKeyIsSafe` | internal/app/mutate.go:67-82 | A repeat of a cached request returns the stored result and leaves snapshot and handles alone; a cached key with other operations changes nothing |
| `Pipeline.ConflictEvictsNothing` | internal/app/mutate.go:180-186 | A revision conflict leaves the whole state, the cache included, as it was |
| `Pipeline.AppliedResultIsExact` | internal/app/mutate.go:67-103 | A new result names the revision active just before it, and its own revision and generation are active afterwards |
| `Pipeline.GenerationCountsInstalls` | internal/app/reset.go:44-68 | Over every run of plan, apply and reset from an active snapshot the generation rises by exactly one per installed snapshot |
| `Pipeline.StepGeneration` | internal/app/mutate.go:105-157 | A call that installs nothing leaves snapshot and handles alone |
| `Pipeline.AppliesKeepBootstrap` | internal/app/mutate.go:146-157 | No run without a reset changes a bootstrap revision once it is set |
| `Pipeline.DriftIsSinceReset` | internal/snapshot/snapshot.go:55-60 | As revisions are never empty, from a reset on drift is reported exactly while the revision differs from the one that reset installed |
| `PipelineLaws.RepeatIsReplayed` | internal/app/mutate.go:67-103 | A request repeated after any number of calls that use fewer other keys than the cache holds, with no reset between, gets its first result again and installs nothing |
| `PipelineLaws.BuildIsExact` | internal/app/mutate.go:105-157 | A candidate is built exactly when there is a snapshot, the request names its revision and the edited document compiles; it is that compiled document under its own revision, one generation on; each failure occurs exactly when its cause does |
| `PipelineLaws.ApplyIsExact` | internal/app/mutate.go:67-103 | Under a fresh key an apply goes through exactly when a candidate can be built; then what is active is the edited document compiled, the result says so and is cached under the key; else nothing changes |
| `PipelineLaws.KeyedReplies` | internal/app/mutate.go:67-82 | Without a key an apply is refused for that; with a cached key it installs nothing, and is refused as reused exactly when the cached fingerprint differs |
| `PipelineLaws.PlanForetells` | internal/app/mutate.go:27-38 | A plan succeeds exactly when the same apply under a fresh key would, names the revision that apply would install or gives its refusal, and changes nothing |
| `PipelineLaws.PlanStillHolds` | internal/app/mutate.go:27-38 | After any calls that install nothing, an apply under a fresh key installs the planned revision |
| `PipelineLaws.ResetIsExact` | internal/app/reset.go:44-103 | A reset compiles the loaded file, or the recorded bootstrap when no file is configured, and succeeds exactly when there is one and it compiles; then it is active and the bootstrap, and nothing is cached; else nothing changes |
| `PipelineLaws.ResetRebuilds` | internal/app/reset.go:105-161 | After a reset no handle is one that was live before |
| `PipelineLaws.StateIsReplay` | internal/app/mutate.go:105-157 | Over every run without a reset the active state is what the installed operations, one after another, make of the state before, under the revision of its document |
| `PipelineLaws.StateSinceReset` | internal/app/reset.go:44-103 | From a reset on, it is what they make of the loaded document |
| `PipelineLaws.NoLostUpdate` | internal/app/mutate.go:105-119 | Of two writers from one revision, once one has installed another revision the other is refused and changes nothing |
| `Pipeline.HandlesOverRuns` | internal/app/reset.go:105-161 | After every run from a state whose handles fit its snapshot, users share their profile's handle in shared mode, and otherwise all profile and user handles are pairwise distinct |
| `Pipeline.ApplyKeepsHandleIff` | internal/app/reset.go:113-181 | On profiles without number-like texts, and without null fields before the apply, an apply keeps a profile's handle exactly when sharing mode, schema, running and startup are unchanged, and an unshared user's exactly when its binding is unchanged too |
| `Pipeline.SameProfileIff` | internal/app/reset.go:163-181 | On such profiles the comparison decides equality of schema, running and startup |
| `Pipeline.ProfileDecidesIff` | internal/app/reset.go:163-181 | Among profiles without number-like texts, it tells every changed profile from a given old one exactly when no map field of the old one is null |
| `Pipeline.ChangedProfileIsKept` | internal/app/reset.go:163-181 | A changed profile that is taken for the old one keeps its stale handle |
| `Pipeline.NanProfileIsRebuilt` | internal/app/reset.go:163-181 | A profile whose running tree holds a NaN text never keeps its handle |
| `Pipeline.ApplyFollowsGuard` | internal/app/reset.go:113-161 | For all trees, the handles an apply keeps are those whose profile compares the same |
| `Engines.Engine.Build` | internal/app/mutate.go:105-144 | The candidate is the one `PipelineLaws.BuildIsExact` describes, and its diff turns the active document into the candidate's and back |
| `Engines.Engine.Apply` | internal/app/mutate.go:67-103 | The object with the linked cache takes exactly the specified apply step, and a new result's diff explains the change of document |
| `Engines.Engine.Sync` | internal/app/reset.go:113-161 | The object's handle maps are replaced as specified |
| `Engines.Engine.Reset` | internal/app/reset.go:44-111 | The object takes exactly the specified reset step, all handles new and the cache empty, and wipes the notification ring exactly when it succeeds |
| `Rings.Ring.constructor` | internal/notif/ring.go:41-49 | An empty ring whose capacity is clamped to 4096 and defaults to 256 |
| `Rings.Ring.Shift` | internal/notif/ring.go:60-63 | In place, a full ring drops its oldest record and keeps the others in order |
| `Rings.Ring.TakeWaiters` | internal/notif/ring.go:164-182 | One pass over the array of waiters takes exactly the matching ones and compacts the others in place, in order |
| `Rings.Ring.Park` | internal/notif/ring.go:132 | The waiter is appended, in a larger array when the old one is full |
| `Rings.Ring.Commit` | internal/notif/ring.go:52-70 | The oldest record makes room, and exactly the matching waiters are taken, in order |
| `Rings.Ring.Wait` | internal/notif/ring.go:119-142 | The newest matching record is returned, or the caller is parked |
| `Rings.Ring.RemoveWaiter` | internal/notif/ring.go:184-197 | The waiter with that channel goes and the others keep their order |
| `Rings.Ring.Wipe` | internal/notif/ring.go:144-153 | The ring empties and everyone parked is to be told |
| `Rings.TokensConserved` | internal/notif/ring.go:119-197 | A channel's token, parked, due or sent, is made only by the wait that parks it, lost only from the parked by its own timeout, and conserved by every other step |
| `Rings.Newest` | internal/notif/ring.go:155-162 | The record found matches and no later one does; none is found exactly when none matches |
| `Rings.WaiterGetsTheFirst` | internal/notif/ring.go:52-197 | In every interleaving, the first record committed after a waiter parked that it asks for, or the first wipe, is what its channel is sent or owed ever after, and nothing else is |
| `Rings.DueIsNotLost` | internal/notif/ring.go:67-69 | What is due is still due or was sent after any further steps |
| `Rings.SendNeverBlocks` | internal/notif/ring.go:67-69 | A due send never finds its channel's slot taken |
| `Rings.StepKeepsInvariant` | internal/notif/ring.go:52-197 | Every step keeps the ring's invariant |
| `Rings.RunKeepsInvariant` | internal/notif/ring.go:52-197 | In every interleaving no parked query matches a stored record, the records are the last cap commits since the last wipe in order, each channel is sent at most one result, one it asked for, and no send would block |
| `Rings.InitIsInvariant` | internal/notif/ring.go:41-49 | A new ring satisfies the invariant |

## Left out

- SSH handshake, key parsing, sockets, channel plumbing and I/O errors other than end of input.
- HTTP and RESTCONF servers, the management API, MCP, the CLI, the user interface, XML coding, audit, metrics and logging.
- YAML and JSON decoding, canonical text and SHA-256: compilation, revision, edit verbs and request fingerprint are parameters of `Pipeline`. The edit verbs include the refusal of changes that only a reset may make.
- Clocks and ULIDs: a timeout is a step that may happen at any time, and record ids are given.
- Getters such as processUptime: reads return what is stored.
- Regular expressions, numeric ranges and ParseFloat: opaque predicates and a parameter of the schema and the diff.
- Numbers that are not integers: numbers are integers, number-like texts parse to a finite number, an infinity or a NaN by a parameter, and integers become floats by a parameter.
- Error messages and field violations: errors are told apart by kind only.
- The 64-bit width of generations and session ids: they are unbounded.
- Request contexts: a flag for cancelled and the session id.
- Non-ASCII identifiers and white space in paths.
- A Node passed as the value of an edit: the caller has already resolved it to a plain value.
- Edits.PutLoop: the cursors rebuild the values they pass instead of writing through shared maps, so aliasing between a tree and its clone is not modelled.
- Edits.DeleteLoop: as for PutLoop, removal rebuilds the parents instead of shifting a shared slice.
- Values.KeysForItem: an entry without name, id, index or key falls back to its alphabetically first text field, where Go takes any.
- Diffs.DiffWalk: changes carry structural paths, whose texts are distinct by `Paths.PrintIsInjective`; the predicates that one entry's path leaves on the shared path slice while a list mixes keyed and keyless entries are not modelled, nor is the order of the changes.
- DiffLaws.DiffIsExact: trees are null-free, without number-like texts, and their lists lie below a module's top level and hold entries with distinct quote-free names; the lost-change and leaf-list lemmas show why, and say what happens outside.
- DiffLaws.NothingReportedIffAgree: the same trees.
- DiffLaws.ReportsAreTruthful: the same trees.
- DiffLaws.DifferingLeafIsReported: the same trees.
- DiffLaws.PlainLeafListChanges: items are neither null nor number-like; `DiffLaws.LeafListChanges` has no such condition.
- DatastoreLaws.DeleteConfigIsExact: a schema that declares a leaf at the empty path, which no leaf list can yield (`SchemaLaws.NewSchema`), could refuse the empty tree.
- Datastore.Handle.Commit: the changes are stated as a set; their order and number are not.
- EditLaws.WriteReadsBackIff: a path that descends through one of its own predicates is covered unless that predicate's text starts like a rendered map or list (`map[` or `[`); then whether the read finds the written entry, or another one that prints alike, depends on the rendering of whole subtrees.
- EditLaws.WriteReadsBack: the same exclusion, for whole trees.
- DeleteLaws.DeletedIsGoneIff: the same exclusion, for deletions that would go through such a predicate.
- DeleteLaws.DeleteFrame: the same exclusion.
- DeleteLaws.DeleteIsExact: the same exclusion.
- EditLaws.PutStepsFrame: a write that goes through one of its own predicates, or starts a step from a list, can hide an entry or overwrite a list; for a write that ends on the key, `DeleteLaws.RekeyedEntryIsHidden` says what it hides.
- WalkDiffs.WalkDiff: entries carry structural paths; the final sort by printed path is not modelled.
- Pipeline.AppliedResultIsExact: the cached result does not hold its diff, which `Engines.Engine.Apply` returns beside it.
- Pipeline.HandlesOverRuns: a handle object is identified by when it was built and for which profile or user.
- Admission.SweptAreAdmitted: which addresses a list of prefixes admits is a parameter.
