# Comment view model of ItHub_Web_Components, in Dafny

This project models the comment view model of the ItHub web components:

- the transformer that turns flat comment records into enriched records carrying the ids of their direct replies (`directChildIds`) and of all their descendants (`allChildIds`);
- the comment index with its root and child partitions, and the empty sentinel index;
- the `CommentViewModel` facade with one-time initialisation, add, update, upvote, sorted queries and event subscriptions;
- the three comparators of the comment sorter;
- the helpers `isNil`, `isStringEmpty`, `areArraysEqual` and `tagNoop`.

Modules, one per file:

- `Sorting` (`sorting.dfy`): the stable sort that `Array.prototype.sort` performs, and its in-place form on an array.
- `Util` (`util.dfy`): `src/common/util.ts`.
- `TagNoop` (`tag-noop.dfy`): `src/css/tagNoop.ts`.
- `Models` (`models.dfy`): the comment record and the partial records that `Object.assign` lays over it.
- `JsMaps` (`js-map.dfy`): the insertion-ordered ECMAScript `Map` that the index partitions are.
- `CommentModelEnriched` (`comment-model-enriched.dfy`): the enriched record, `hasAttachments` and `deplete`.
- `CommentsByIdFactory` (`comments-by-id.dfy`): the map-based index as a class over two maps, the empty sentinel, and the value-level partitions the class is specified by.
- `CommentTransformer` (`comment-transformer.dfy`): `enrich`, the ancestor walk and `enrichMany`, as methods proved against functions.
- `Threading` (`threading.dfy`): what enrichment builds when parents come before their replies: reply lists and descendant lists, proved for every batch.
- `CommentSorter` (`comment-sorter.dfy`): `getSorter`.
- `ViewModel` (`comment-view-model.dfy`): `CommentViewModel`.

Modelling choices:

- A `Date` is its time value in milliseconds, an `int`.
- An optional property that is absent, `undefined` or `null` is `None`.
- A stored enriched record is a value. Where the source pushes onto arrays of a record the index holds by reference, the model writes the extended record back to the place where the child-first lookup found it.
- A thrown error is an `Err` of a `Result`, naming why: an operation not supported by the empty index, a property read on `undefined`, an id that already exists or one that does not.
- The event emitter is a table of listener identities per event, kept in registration order. Every emit is appended, with the listeners it reaches, to a ghost log.

## Model

| member | source | states |
|---|---|---|
| Sorting.StableSort | src/view-model/comment-view-model.ts:44 | the sorted sequence has the input's length and elements (a permutation) |
| Sorting.StableSortSorted | src/view-model/comment-view-model.ts:44 | with a consistent comparator, the result is ordered by it |
| Sorting.StableSortKeepsTies | src/view-model/comment-transformer.ts:14 | the records that compare equal to any given one keep their relative order (stability) |
| Sorting.SortedArrangementUnique | src/common/util.ts:15-24 | two ordered permutations of each other under a comparator whose ties are equal are identical |
| Sorting.SortInPlace | src/view-model/comment-transformer.ts:14 | the array afterwards holds the stable sort of its old contents |
| Util.StringEmptyIffBlank | src/common/util.ts:5-7 | isStringEmpty is true exactly for a nil value or a string made only of whitespace |
| Util.TrimStartEmpty | src/common/util.ts:6 | trimming the start leaves nothing exactly when every character is whitespace, and otherwise leaves a non-whitespace first character |
| Util.CompareCharsIsTotalOrder | src/common/util.ts:15-16 | the default string order of sort is consistent and ties only equal strings |
| Util.SameAfterSortIffSameElements | src/common/util.ts:10-24 | for string elements, comparing the two sorted arrays element by element answers whether the inputs are equal as multisets, symmetrically in the two arguments |
| Util.AreArraysEqual | src/common/util.ts:10-24 | on arrays of strings, the answer is that comparison; different lengths leave both arrays untouched, equal lengths leave each sorted in place |
| TagNoop.Tag | src/css/tagNoop.ts:4-9 | the loop builds chunk0 + sub1 + chunk1 + … + subN + chunkN, and a single chunk comes back unchanged |
| TagNoop.InterleaveLength | src/css/tagNoop.ts:5-8 | the result is as long as all chunks and substitutions together |
| TagNoop.InterleaveStartsWithFirstChunk | src/css/tagNoop.ts:5 | the result begins with the first chunk |
| TagNoop.InterleaveReadsForward | src/css/tagNoop.ts:5-7 | the result reads front to back as chunk 0, then each substitution followed by the chunk after it |
| Models.NilTruthyOrEmpty | src/common/util.ts:1-3 | a truthy parent id is never nil and a nil one never truthy; the one value that is neither is the empty string |
| Models.OverlayIdempotent | src/view-model/comment-transformer.ts:43 | laying the same partial record over a record twice is laying it once |
| JsMaps.SetFacts | src/view-model/comments-by-id-factory.ts:22-28 | `Map.set` keeps the map valid, reads back the value, leaves other keys alone and grows the size exactly for a new key |
| JsMaps.DeleteFacts | src/view-model/comments-by-id-factory.ts:30-35 | `Map.delete` answers whether the key was there, removes only it and shrinks the size accordingly |
| JsMaps.UnionFacts | src/view-model/comments-by-id-factory.ts:50-51 | in `new Map([...a, ...b])` a key of b reads b's value, any other key a's |
| JsMaps.SetNewValues | src/view-model/comments-by-id-factory.ts:38 | setting a new key appends its value to the values, which follow key order |
| JsMaps.WithoutSplits | src/view-model/comment-view-model.ts:66 | dropping a listener from a concatenation is dropping it from each part, in order |
| JsMaps.WithoutCounts | src/view-model/comment-view-model.ts:66 | dropping a listener keeps every other one exactly as many times as it occurs |
| JsMaps.SetPresentValues | src/view-model/comments-by-id-factory.ts:38 | setting a present key replaces its value in place: same length, same position, every other value unchanged |
| CommentModelEnriched.HasAttachmentsIffListed | src/view-model/comment-transformer.ts:39-41 | hasAttachments() is true exactly when some attachment is listed |
| CommentModelEnriched.DepleteUndoesCopy | src/view-model/comment-transformer.ts:42-49 | depleting a fresh copy without a patch gives the original record back |
| CommentModelEnriched.DepleteStable | src/view-model/comment-transformer.ts:42-49 | deplete drops the derived lists and depleting again with the same patch changes nothing |
| CommentsByIdFactory.PutFacts | src/view-model/comments-by-id-factory.ts:22-28 | setComment writes to the child map exactly when parentId is truthy, leaves the other map untouched, grows the size exactly for a new id and changes no other id |
| CommentsByIdFactory.PutNewRootAppends | src/view-model/comments-by-id-factory.ts:26-27 | a new root record is appended to the root listing |
| CommentsByIdFactory.PutKeepsOnePartition | src/view-model/comments-by-id-factory.ts:22-28 | storing a new id keeps every id in exactly one of the two maps, and puts the new one in the child map exactly when its parentId is truthy, in the root map otherwise |
| CommentsByIdFactory.RemoveFacts | src/view-model/comments-by-id-factory.ts:30-35 | deleteComment removes only from the map parentId selects and answers whether the id was there |
| CommentsByIdFactory.ReplaceFacts | src/view-model/comment-transformer.ts:53 | writing a record back where the lookup found it keeps keys, key order and size and changes only that id |
| CommentsByIdFactory.ReplaceKeepsOnePartition | src/view-model/comment-transformer.ts:53-54 | writing a record back where the lookup found it keeps every id in exactly one of the two maps |
| CommentsByIdFactory.MergedFacts | src/view-model/comments-by-id-factory.ts:48-53 | the merge of two indexes has per partition the union of keys with the right side winning; merging into an empty index gives the right side itself |
| CommentsByIdFactory.SizeCountsRecords | src/view-model/comments-by-id-factory.ts:14-16 | size is the number of root records plus the number of child records |
| CommentsByIdFactory.ZeroSizeIsEmpty | src/view-model/comments-by-id-factory.ts:14-16 | an index of size 0 holds two empty maps |
| CommentsByIdFactory.MergeIntoEmpty | src/view-model/comments-by-id-factory.ts:47-53 | merging an index into one of size 0 gives that index back, entries and key order included |
| CommentsByIdFactory.MapBasedCommentsById.SetComment | src/view-model/comments-by-id-factory.ts:22-28 | the maps afterwards are the old ones with the record set in the partition its parentId selects |
| CommentsByIdFactory.MapBasedCommentsById.DeleteComment | src/view-model/comments-by-id-factory.ts:30-35 | the maps afterwards lack the id in the selected partition, and the answer is whether it was there |
| CommentsByIdFactory.MapBasedCommentsById.UpdateStored | src/view-model/comment-transformer.ts:53-54 | the maps afterwards are the old ones with the record that the child-first lookup finds replaced, which ReplaceFacts characterises |
| CommentsByIdFactory.MapBasedCommentsById.Merge | src/view-model/comments-by-id-factory.ts:47-62 | with a map-based index, a fresh index over the unions, neither input changed; with the empty index, the error its getRootComments throws |
| CommentsByIdFactory.CommentsById.SetComment | src/view-model/comments-by-id-factory.ts:72-74 | the empty index rejects setComment; the map-based one stores the record |
| CommentsByIdFactory.CommentsById.DeleteComment | src/view-model/comments-by-id-factory.ts:76-78 | the empty index rejects deleteComment; the map-based one deletes |
| CommentsByIdFactory.CommentsById.Merge | src/view-model/comments-by-id-factory.ts:88-90 | the empty index answers the other index itself |
| CommentsByIdFactory.EmptyRejectsQueries | src/view-model/comments-by-id-factory.ts:65-86 | the empty index has size 0 and throws on getComment, getRootComments and getChildComments |
| CommentsByIdFactory.From | src/view-model/comments-by-id-factory.ts:98-100 | a fresh map-based index over exactly the given maps |
| CommentTransformer.ByCreationAscIsConsistent | src/view-model/comment-transformer.ts:26-32 | the creation-date comparator is consistent and negative exactly when a was created before b |
| CommentTransformer.VisitParents | src/view-model/comment-transformer.ts:60-72 | the loop leaves the index the ancestor walk specifies: each ancestor found gets the child id appended to allChildIds, nearest first, until a nil or unknown parent id |
| CommentTransformer.Enrich | src/view-model/comment-transformer.ts:34-58 | the returned copy and the index afterwards are those enrichment specifies: copy, push onto the parent's directChildIds, walk the ancestors |
| CommentTransformer.EnrichMany | src/view-model/comment-transformer.ts:9-24 | the caller's array is sorted in place by creation time and the fresh index is the records enriched and stored in that order |
| CommentTransformer.LinkAppendsOnce | src/view-model/comment-transformer.ts:53 | the child id is appended once to the directChildIds of the parent found, and no other record or key changes |
| CommentTransformer.WalkOnlyGrowsAllChildIds | src/view-model/comment-transformer.ts:60-76 | whatever the chain, the walk only appends the child id to allChildIds: no record appears or disappears, comments and directChildIds stay, and an unknown or nil parent id stops it with nothing changed |
| CommentTransformer.EnrichKeepsKeys | src/view-model/comment-transformer.ts:52-55 | enrichment adds no key and keeps the index valid |
| CommentTransformer.EnrichAllValid | src/view-model/comment-transformer.ts:14-21 | the maps enrichMany fills stay valid record after record |
| Threading.EnrichKeepsOnePartition | src/view-model/comment-transformer.ts:52-55 | enrichment keeps the index valid, adds and removes no key and keeps every id in exactly one of the two maps |
| Threading.EnrichAllOnePartition | src/view-model/comment-transformer.ts:14-21 | enriching and storing records with distinct ids one after another keeps every id in exactly one map |
| Threading.EnrichManyOnePartition | src/view-model/comment-transformer.ts:9-24 | for a batch with distinct ids, no id ends up in both the root and the child map |
| Threading.AncestorsBefore | src/view-model/comment-transformer.ts:67-71 | when parents come first, every ancestor of a record comes before it, so the chain is no longer than the record's position |
| Threading.RepliesMeaning | src/view-model/comment-transformer.ts:53 | the reply list of a record holds exactly the ids of the records naming it as parent |
| Threading.DescendantsMeaning | src/view-model/comment-transformer.ts:54 | the descendant list of a record holds exactly the ids of the records that have it among their ancestors |
| Threading.NothingEarlierDescends | src/view-model/comment-transformer.ts:36-38 | nothing enriched before a record replies to it or descends from it, so its lists start empty |
| Threading.ParentIndexMeaning | src/view-model/comment-transformer.ts:12-13 | with unique ids, the resolver finds the parent record exactly when that record is the one the parentId names |
| Threading.EnrichedThreads | src/view-model/comment-transformer.ts:9-24 | after enriching a parents-first batch with unique ids, each record's directChildIds are its replies and its allChildIds its descendants in enrichment order, it sits in the child map exactly when parentId is truthy, and the size is the batch size |
| Threading.ChildCommentsAreDescendants | src/view-model/comments-by-id-factory.ts:41-45 | getChildComments of an enriched record lists all its descendants, not only its direct replies, in order |
| Threading.ChainLists | src/view-model/comment-transformer.ts:60-76 | for the chain A <- B <- C the reply lists are [B], [C], [] and the descendant lists [B, C], [C], [] |
| Threading.ChainExample | src/view-model/comment-transformer.ts:9-24 | enriching A <- B <- C in creation order stores A with [B] and [B, C], B with [C] and [C], C with empty lists |
| Threading.SortPutsParentsFirst | src/view-model/comment-transformer.ts:14 | sorting by creation time puts every parent before its replies when replies are younger |
| Threading.EnrichManyThreads | src/view-model/comment-transformer.ts:9-24 | enrichMany on a batch with unique ids and younger replies stores every record, with directChildIds listing exactly the records naming it as parent, and has the batch size; every record of the batch sits in the child map exactly when its parentId is truthy and in the root map exactly when it is not |
| CommentSorter.UpvotesCountOnlyWhenEnabled | src/view-model/comment-sorter.ts:17-23 | with upvoting disabled, a comment's upvote count never changes a popularity comparison, on either side; with it enabled, a missing count scores as 0 and one more upvote scores one point more |
| CommentSorter.CompareIsAntisymmetric | src/view-model/comment-sorter.ts:13-42 | swapping the two comments negates every comparator |
| CommentSorter.OldestFirst | src/view-model/comment-sorter.ts:34-39 | OLDEST is negative exactly when a was created before b, zero exactly on equal times |
| CommentSorter.NewestFirst | src/view-model/comment-sorter.ts:34-41 | NEWEST is negative exactly when a was created after b |
| CommentSorter.PopularFirst | src/view-model/comment-sorter.ts:16-32 | the higher score sorts first, equal scores fall back to newer first, and only equal scores with equal times tie |
| CommentSorter.SorterIsConsistent | src/view-model/comment-sorter.ts:13-42 | every comparator getSorter answers is a consistent comparator |
| CommentSorter.MostPopularFirst | src/view-model/comment-sorter.ts:14-32 | sorted by popularity, the first comment has the highest score and is the newest among those with that score |
| ViewModel.Added | src/view-model/comment-view-model.ts:59 | the listener is registered after those already there and no other event changes |
| ViewModel.Removed | src/view-model/comment-view-model.ts:66 | every registration of the listener for that event goes; the others stay in registration order, each as often as it was registered; other events are untouched |
| ViewModel.RemovedKeepsOrder | src/view-model/comment-view-model.ts:66 | removing a listener registered between two runs of others leaves what stays of the first run followed by what stays of the second, so [a, l, b] becomes [a, b] |
| ViewModel.Cleared | src/view-model/comment-view-model.ts:70 | the named event, or every event, is left without listeners; others stay |
| ViewModel.UnsubscribeUndoesSubscribe | src/view-model/comment-view-model.ts:55-67 | subscribing a new listener and unsubscribing it restores every event's listeners |
| ViewModel.Updated | src/view-model/comment-view-model.ts:88-95 | the stored record takes every property the payload carries except id, parentId, createdAt, creatorUserId and creatorDisplayName, and keeps its child lists |
| ViewModel.UpdateIsIdempotent | src/view-model/comment-view-model.ts:88-95 | the same update applied twice is applied once; updating a record with its own comment changes nothing |
| ViewModel.Upvoted | src/view-model/comment-view-model.ts:104-107 | only upvoteCount and upvotedByCurrentUser change, to the payload's values, even when the payload lacks them |
| ViewModel.PutKeepsIds | src/view-model/comment-view-model.ts:79 | storing a record keeps every record under its own id |
| ViewModel.EnrichKeepsIds | src/view-model/comment-view-model.ts:75-78 | enrichment keeps every record under its own id |
| ViewModel.EnrichAllKeepsIds | src/view-model/comment-view-model.ts:30 | the index enrichMany builds keeps every record under its own id |
| ViewModel.WalkFromFoundParent | src/view-model/comment-transformer.ts:67-69 | a walk whose first parent is found appends the child id to that parent's allChildIds |
| ViewModel.AddGrowsParent | src/view-model/comment-transformer.ts:52-55 | adding a reply whose parent is stored lists the reply last among the parent's directChildIds and appends it to the parent's allChildIds |
| ViewModel.AddKeepsThreads | src/view-model/comment-view-model.ts:73-81 | adding a new comment that keeps ids distinct and follows its parent to the index enrichMany built leaves every record, the new one included, with exactly its replies as directChildIds and its descendants as allChildIds, placed by truthiness, and grows the size by one |
| ViewModel.AddKeepsOnePartition | src/view-model/comment-view-model.ts:73-81 | adding a new id to an index whose ids each sit in one map keeps it so |
| ViewModel.EmptyParentLinksButStaysRoot | src/view-model/comment-transformer.ts:52-53 | a comment whose parentId is the empty string is linked to a stored record with id "" (isNil is false), yet setComment stores it as a root ("" is falsy), leaving the child map as enrichment left it |
| ViewModel.ReenrichThreadsAgain | src/view-model/comment-transformer.ts:34-58 | re-enriching an already enriched record returns it with its lists unchanged, changes the index exactly as enriching its plain comment would, appends the id once more to a found parent's directChildIds and only ever appends the id to allChildIds |
| ViewModel.AddStoresNewRecord | src/view-model/comment-view-model.ts:73-81 | adding a new id stores the record with empty lists, grows the size by one, finds the record under its id, changes no other key, and lists the id last among a found parent's direct replies and at the end of its descendants |
| ViewModel.RewriteKeepsOthers | src/view-model/comment-view-model.ts:95 | rewriting a stored record keeps the size and every other id's record |
| ViewModel.SortSnapshotFacts | src/view-model/comment-view-model.ts:52 | sorting a child snapshot keeps its length, sorts its defined entries with the comparator and moves every undefined entry behind them |
| ViewModel.CommentViewModel.constructor | src/view-model/comment-view-model.ts:20-22 | a new view model holds the empty index and no listeners |
| ViewModel.CommentViewModel.InitComments | src/view-model/comment-view-model.ts:24-32 | a non-empty index only warns and changes nothing; otherwise the array is sorted in place and the view model holds the fresh enriched index, also after an earlier init with no records |
| ViewModel.CommentViewModel.Size | src/view-model/comment-view-model.ts:34-36 | size is 0 before init and the number of root plus child records after |
| ViewModel.CommentViewModel.GetComment | src/view-model/comment-view-model.ts:38-40 | throws exactly before init; a record found carries the id asked for |
| ViewModel.CommentViewModel.GetRootComments | src/view-model/comment-view-model.ts:42-45 | the root records in insertion order, or their stable sort by the sorter, the index untouched |
| ViewModel.CommentViewModel.GetChildComments | src/view-model/comment-view-model.ts:47-53 | the parent's descendant records, or the sorted snapshot, the index untouched; a missing parent is a TypeError |
| ViewModel.CommentViewModel.Subscribe | src/view-model/comment-view-model.ts:55-63 | the listener is registered and a handle for that event and listener is returned |
| ViewModel.CommentViewModel.Unsubscribe | src/view-model/comment-view-model.ts:65-67 | the listener's registrations for that event are removed |
| ViewModel.CommentViewModel.Cancel | src/view-model/comment-view-model.ts:61 | a handle's unsubscribe removes its listener from its event |
| ViewModel.CommentViewModel.UnsubscribeAll | src/view-model/comment-view-model.ts:69-71 | the listeners of one event, or of all events, are removed |
| ViewModel.CommentViewModel.Emit | src/view-model/comment-view-model.ts:80 | one emission with the id, reaching the event's listeners in order, is logged and nothing else changes |
| ViewModel.CommentViewModel.AddComment | src/view-model/comment-view-model.ts:73-82 | before init it throws; an existing id throws with nothing changed; otherwise the enriched record is stored and returned and exactly one COMMENT_ADDED with the id is emitted; an index whose ids each sit in one map stays so |
| ViewModel.CommentViewModel.UpdateComment | src/view-model/comment-view-model.ts:84-98 | before init it throws; a missing id throws with nothing changed; otherwise the stored record is updated in place, keeping its identity, and COMMENT_UPDATED is emitted; an index whose ids each sit in one map stays so |
| ViewModel.CommentViewModel.UpvoteComment | src/view-model/comment-view-model.ts:100-110 | before init it throws; a missing id throws with nothing changed; otherwise only the two upvote fields change and COMMENT_UPVOTED is emitted; an index whose ids each sit in one map stays so |

The view model's invariant (`CommentViewModel.Valid`) says that the index is consistent, that every record is found under its own id, and that no COMMENT_DELETED is ever emitted. Every method keeps it.

"Each id sits in exactly one of the two maps" (`CommentsByIdFactory.OnePartition`) is proved for every batch with distinct ids and preserved by add, update and upvote. It is not part of `Valid`. A batch that repeats an id can store that id once as a root and once as a reply, because setComment never deletes from the other map, and initComments accepts such a batch.

Definitions without a row of their own are specified by the lemmas listed above:

- `Util.IsNil`: `Models.NilTruthyOrEmpty` and `Util.StringEmptyIffBlank`.
- `CommentSorter.Points`, `Compare` and `GetSorter`: `CommentSorter.UpvotesCountOnlyWhenEnabled`, `OldestFirst`, `NewestFirst`, `PopularFirst`, `SorterIsConsistent`, `CompareIsAntisymmetric` and `MostPopularFirst`.
- `CommentModelEnriched.Copy`: `DepleteUndoesCopy`, `Threading.NothingEarlierDescends` and `ViewModel.ReenrichThreadsAgain`.
- `CommentsByIdFactory.Partitions` with `Lookup`, `Put`, `Remove`, `Replace`, `RootComments` and `ChildComments`: `PutFacts`, `RemoveFacts`, `ReplaceFacts`, `PutNewRootAppends`, `SizeCountsRecords` and `Threading.ChildCommentsAreDescendants`.
- `CommentTransformer.Walk`, `LinkToParent`, `EnrichSpec` and `EnrichAll`: `WalkOnlyGrowsAllChildIds`, `LinkAppendsOnce`, `EnrichKeepsKeys`, `EnrichAllValid`, the methods `VisitParents`, `Enrich` and `EnrichMany`, and `Threading.EnrichedThreads`.

## Left out

- DOM, custom elements, styling, the network callbacks and the demo are outside this model.
- The internals of eventemitter3 are left out. A listener is an identity. Calling it, what it does and re-entrant calls from it are not modelled; the ghost log records which listeners an emit reaches.
- `console.warn` in initComments is a returned flag.
- CommentTransformer.Walk: the source's do-while over ancestors has no cycle guard. The model stops after one visit more than the index has records. For a chain that ends, this cap is never reached. A cyclic parentId chain, on which the source loops forever, is not modelled.
- Object identity and aliasing are left out. Records are values. The model does not capture:
  - that `merge` shares record objects between indexes;
  - that a re-enriched record shares its arrays with the original;
  - that `updateComment` also writes the identity fields into the caller's payload object.
- ViewModel.Updated: a payload property that is present but explicitly `undefined` overwrites the stored value in the source. The model reads it as absent.
- Properties a payload carries beyond those of a comment record are left out.
- ViewModel.CommentViewModel.AddComment and InitComments take plain records. Re-enrichment of an already-enriched record through them is modelled only at the transformer level (`CommentModelEnriched.Incoming`).
- The rebuild branch of `merge` for a non-map-based index calls that index's `getRootComments` first. The only other index is the empty one, which throws there, so the model returns that error.
- Util.AreArraysEqual: elements are modelled as strings; a number id stands for its decimal string. The source is generic and compares with `!==` after a default sort on string forms. Arrays of objects, where every element ties and the input order decides, and arrays mixing strings and numbers, where `["1", 1]` and `[1, "1"]` come out unequal, are not modelled.
- Util.SameAfterSortIffSameElements: proved for string elements only, for the reason given for Util.AreArraysEqual.
- Util.CompareChars compares characters by code point. JavaScript's default sort compares UTF-16 code units, which differ for characters outside the Basic Multilingual Plane.
- TagNoop.Tag requires one chunk more than substitutions, as a tagged template always supplies. Number substitutions are left out.
- Dates are integers, so a `Date` whose time is NaN is not modelled.
- CommentSorter.Points reads `allChildIds?.length ?? 0`; enriched records always carry the list here, so the missing-list case does not arise.
- Threading.EnrichManyThreads requires replies to be strictly younger than their parents. With equal timestamps, the stable sort keeps input order, which may put a reply before its parent; that case is not covered by the theorem.
- `normalizeSpaces` and `isMobileBrowser` of `src/common/util.ts` are outside the core: one relies on Unicode property regexes, the other on the browser.
