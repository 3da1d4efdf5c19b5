# yjs-go in Dafny

This project models the core of yjs-go, a Go library in the style of Yjs: documents whose texts, arrays
and maps several peers edit and keep in step by exchanging binary updates. It covers the engine of the
root package and the version 1 wire format, from the pointers and the bytes up to statements about whole
runs.

Three layers are tied together.

- On values. A document is a `DocState`: the items of every client in the store, one list of items per
  text, array or map key, the accumulated delete set, and the IDs that are marked deleted. Integration,
  range deletion, local edits, transactions, snapshots and state-vector sync are functions on it, and the
  theorems about runs are proved here: convergence of all causal delivery orders, deletion in any order,
  single-author replication, several authors, tiling of the store, diff sync.
- On objects. `Item`, `SharedType`, `StructStore`, `Doc` and `Transaction` are classes with the fields of
  the library, and the operations relink pointers, truncate items, shift store slices and set flags in
  place, with the loops of the library. Each method is proved to have on the state that the objects show
  exactly the effect of its function on values. Text has its own abstraction (`Fragments`), because a local
  split leaves the store out of order.
- On bytes. Every reader and writer of the codec is a stream method with the loops of the library, proved
  against a parser and a printer on byte sequences, and printing followed by parsing is proved to be the
  identity where it is. What the printers write and the parsers read is also given in literal bytes, each
  without the other.

`Sessions.Replicate` joins all three: two object graphs, transactions on one of them, the bytes that each
one emits applied to the other, and equal contents at the end.

The modules, from the bottom up:

| modules | part of the library |
|---|---|
| `Wrappers`, `Values`, `Ids`, `Cells` | the plain values: bytes, any-values, IDs, items, delete sets |
| `Integration`, `Convergence`, `Intention`, `SiblingOrder` | `integrate.go`: placement, the two-item diamond, all causal orders, who stands left of whom |
| `Deletion`, `Exactness`, `DeleteOrder`, `Replicas`, `RangeOrder`, `UnitReplicas`, `SplitLists`, `TextReplicas`, `MovedText`, `Tiling` | `delete.go`, `store.go`, `ApplyUpdate` on values |
| `Authoring`, `LocalEdits`, `Replication`, `Peers`, `Snapshots`, `TextSessions`, `DiffSync` | local edits, transactions, replication, sessions with texts, several authors, sync |
| `Fragments`, `Seams` | a text list on values, and where edits split items of their transaction |
| `Items`, `Linking`, `Docs`, `Integrator`, `RangeDeleter`, `Updater` | the object graph: integration, splitting and deleting in place |
| `Arrays`, `Maps`, `Texts` | `array.go`, `map.go`, `text.go` on the object graph |
| `Streams`, `Varints`, `AnyValues`, `StateVectors`, `EncodedItems`, `Updates`, `Encoding` | the codec and `encoding.go` |
| `WireFormat`, `UpdateFormat`, `DeletedContent` | the wire format in literal bytes, and what becomes of deleted content |
| `Transactions`, `Applying`, `Syncing`, `Sessions` | `Transact`, `ApplyUpdate`, `EncodeStateAsUpdate` and whole sessions, with bytes |
| `TextTransactions`, `DiffBytes`, `SnapshotBytes`, `SentOrder`, `Restoring` | edits of a text in a transaction and what is sent of them; diffs and snapshots, with bytes, of one author and of several; `Snapshot` and `RestoreDoc` on the object graph |

`dafny verify dfyconfig.toml` checks everything.

Where the code and its documentation disagree the model follows the code, and says exactly when the
promise is kept:

- `README.md:5` promises that peers that edit without coordination converge. Local edits are linked without
  the comparison that `integrateItem` makes elsewhere. `Peers.StepAgrees` gives the exact condition of one
  edit, a comparison of the new item with its right neighbour or with the entry it replaces;
  `Peers.PeersConverge` proves convergence of whole runs under it; `Peers.FrontInsertDiverges` and
  `Peers.LaterSetLost` are runs of four steps, without any concurrency, where it fails.
- The same promise fails for one author who inserts inside of an earlier text item: `Peers.InsertInsideMoves`,
  with the exact condition in `Peers.RightAfterOriginIff`.
- A deletion in the middle of a string can move what arrives after it: the right part of a split has an origin of
  its own, with which later items are compared (`delete.go:63-74`, `integrate.go:104-116`).
  `SplitLists.IntegrateSplitIff` has the exact condition for one split and one item, `SplitLists.CalmIff` for all
  splits of a list, and `TextReplicas.TextsConverge` proves that replicas agree on texts and deletions under it.
  `MovedText.DeletionMoves` is a run where two replicas show different texts.
- `integrate.go:102-103` says that the smaller ID goes first; the code puts the greater one first.
- `README.md:16` calls the straddle branch of `Text.Delete` dead; it is reached whenever a deletion starts
  inside an item, and `Texts.Delete` covers it.
- `doc.go:229-231` calls range deletion idempotent, and relies on that to apply the whole accumulated delete
  set after every update. A split does not copy the deleted flag (`delete.go:63-74`), so a range that ends inside
  a deleted string brings the rest of that string back: `Exactness.ExactUnlessAcross` has the exact condition for
  one range, `RangeOrder.SettlesIff` the exact condition on a delete set under which the order of its ranges does
  not matter, and `Replicas.Reapply` proves under it over whole runs that an update that comes again, at any later
  time, changes nothing.
- `doc.go:285-287` promises that a restored snapshot has the same state. A snapshot has no delete set, so
  deleted elements come back, also those that `Text.Insert` has unlinked from the list of the author:
  `Snapshots.SnapshotRoundTrip` has the exact condition, `Snapshots.UnlinkedReturns` an input. And the items of
  several authors are sent by descending client (`protocol/update.go:564-641`), so that an item whose origin is of
  a smaller client comes before its origin and is never linked: `SentOrder.SnapshotOfMany` has the exact
  condition, `SentOrder.GreaterAuthorLost` an input.
- `doc.go:177-190` sends the items of a transaction as they are at its end. An edit that falls inside an item of
  the same transaction splits it in place (`text.go:247-297`), and its right part is in no update:
  `TextTransactions.EditAll` has the exact condition, on the edits alone when the transaction starts with them;
  `TextTransactions.SplitOwnInsertion` and `TextTransactions.SplitReadBack` are an input and what a peer reads of it.
- `store.go:35` requires clock order, and `text.go:293` does not keep it: `Tiling.LocalSplitSorted`.
- A slice of one value is read back as the value (`protocol/update.go:321-322`): `EncodedItems.OneElementLost`.

Names of the model: `Receive` is `integrateItem`, `Deliver` a sequence of them, `Inv` the well-formedness of
a replica, `dead` the IDs of the items whose `Deleted` flag is set, `Wire(c)` an item as it is sent (its
parent only without an origin), `Emitted` the update of a transaction, `Fits`/`Enabled` the causal order that
the library expects of its callers.

## Model

| member | source | states |
|---|---|---|
| Integration.BeforeIsStrictTotalOrder | integrate.go:104-121 | lssIsBefore in numbers: an item goes left of another one if it has an origin and the other has none, or the origin of the later clock, or with origins of the same clock (or none) the greater client, or the same client and the greater clock; it is irreflexive, transitive, and total on items with different IDs, which the scan silently relies on |
| Integration.PlaceIs | integrate.go:74-86 | an index is where the scan stops if and only if from the start up to it no item holds OriginRight and the new one goes left of none, and it is the end of the list, or its item holds OriginRight, or the new one goes left of its item, in terms of origin clocks, IDs and covered clocks |
| Integration.LeftOfRightOrigin | integrate.go:68-86 | an item is put left of its right origin if and only if that lies at or after the start of the scan |
| Integration.ReceiveKeepsInv | integrate.go:6-100 | whatever fitting item is integrated, the store stays sorted and without overlaps, every list holds stored items of that list once each, and every deleted ID starts a stored item |
| Integration.ReceiveKeepsPlaced | integrate.go:44-99 | every stored element that has a parent is in the list of that parent, also after the next item |
| Convergence.DiamondOrdered | integrate.go:74-121 | if x belongs before y, each of the two finds its own place whether or not the other one is there already |
| Convergence.Diamond | integrate.go:62-121 | two items, neither the origin of the other, integrate to the same list in either order |
| Convergence.ReceiveCommutes | integrate.go:6-100 | two deliverable items of different clients may be received in either order: same store, lists, delete flags |
| Convergence.MoveToFront | integrate.go:6-100 | an item that can be delivered now may be delivered now instead of after any causal run of items of other clients |
| Convergence.Converges | integrate.go:6-121 | convergence: from any well-formed replica, any two causal delivery orders of the same items end in exactly the same document state |
| Convergence.CausalConverges | integrate.go:6-121 | the same in terms of the items alone: any two causal sequences of the same items take blank replicas, whatever deletions they know of already, to the same state |
| Convergence.CausalFlows | integrate.go:44-60 | causality read off the items alone (each client in clock order, each origin earlier in the sequence) is enough for every item to be linked, on a blank replica that already knows any delete set |
| Intention.DeliverKeepsOrder | integrate.go:74-99 | whatever is received later, two linked items keep their order |
| Intention.DeliverKeepsOrigins | integrate.go:62-99 | over every causal delivery each item is linked to the right of its origin and stays there |
| Intention.MapWinner | map.go:59-70 | on every replica, in whatever causal order the items arrive, the chain of a map key descends by client and then by clock; its head is a received entry of the key than which no received entry has a greater client, or the same client and a greater clock; Get returns its value unless it is known to be deleted, and then nothing |
| SiblingOrder.LaterOriginsLeft | integrate.go:62-121 | after every causal delivery, in every list: of the items between an item and its origin each has an origin of a later clock, or of the same clock (or both have none) and the greater client, or the same client and a greater clock |
| SiblingOrder.GreaterIdLeftIff | integrate.go:104-121 | of two items of a list whose origins have the same clock, the one of the greater client (then clock) stands left if and only if the other one is not its origin and does not stand left of its origin |
| SiblingOrder.GreaterClientLeft | integrate.go:118-120 | of two items with the same origin, or two first items of one list, the one of the greater client stands left on every replica, in whatever causal order the items arrive |
| SiblingOrder.EqualClocksApart | integrate.go:104-121 | origins of the same clock alone do not decide: after the a of client 2 and the b of client 1, client 3 types y after the a and client 9 x after the b; every replica reads a, y, b, x |
| SiblingOrder.RightOriginRight | integrate.go:68-86 | over every run: an item that names a right origin which is in its list when it arrives stands left of it from then on if that lies at or after the start of its scan, and otherwise right of it |
| SiblingOrder.InsertedBetween | integrate.go:77-86 | client 2 types p and q, client 1 inserts x with p and q as its origins: the text reads p, x, q, although by IDs x would go behind q |
| Deletion.SplitKeepsUnits | delete.go:32-88 | splitting changes nothing in the sequence of (client, clock, character) of a list |
| Deletion.SplitFind | delete.go:83-107 | after a split getItem finds, for every clock the right half covers, the right half, and for every other ID what it found before |
| Deletion.SplitPlaces | delete.go:57-84 | a split in numbers: in its list the string gives way to its first characters, with everything else it said, and a new item at the clock with the others, whose origin is the unit before, which has no right origin and no key, and which is not deleted |
| Deletion.SplitMembers | delete.go:57-84 | the two parts take the place of the item; nothing else is added or lost |
| Deletion.SplitKeepsInv | delete.go:32-107 | a split keeps the whole replica well formed |
| Exactness.ApplyUnit | delete.go:6-88 | which units are deleted after a range was applied, whatever the content: the characters of strings in the range, other items that start in it, and the earlier ones that no split cut off |
| Exactness.ExactUnlessAcross | delete.go:57-84 | a delete range deletes exactly its stored units, on top of what was deleted, if and only if it does not end strictly inside a deleted string (the split does not copy the flag) and, unless it is empty, has no boundary strictly inside a live item that cannot be split |
| DeleteOrder.StepUnderway | delete.go:6-26 | at every point of the walk over a delete set: what is not deleted of a range that was applied is a piece of a string that starts where a range still to come starts |
| DeleteOrder.OrderFree | doc.go:232-241 | if some range starts wherever one ends strictly inside another one, applying a delete set in any order deletes exactly the characters that some range covers, the other items whose first clock is covered, and what arrived deleted |
| Replicas.RunSettles | doc.go:207-241 | over every run of updates with such delete sets, deletes before or after the items they delete, deleted is exactly that; of a string, a character exactly when a received range covers it |
| Replicas.Reapply | doc.go:222-241 | over every run of updates: an update that was received at any time of the run, and comes again at its end, changes no item, no list and no deleted flag, whatever orders the map iteration takes |
| RangeOrder.OrderMatters | doc.go:232-241 | for every delete set of a client in which a range ends strictly inside another one and none starts there: an item and an order of the ranges with which a fresh replica does not delete what is to be deleted |
| RangeOrder.SettlesIff | doc.go:225-241 | the exact condition on the ranges of a client: every update with them, whatever its items and the order of the ranges, leaves a fresh replica with exactly what is to be deleted, if and only if some range starts wherever one ends strictly inside another one |
| UnitReplicas.ReplicasConverge | doc.go:201-249 | two replicas that received the same unit items and deletions, cut into updates in any way and in any causal orders, have the same store, lists, deleted IDs and visible contents |
| SplitLists.IntegrateSplitIff | delete.go:57-84 | whether an item of a list is split before or after another item is integrated makes no difference, if and only if it is not so that the new item goes before the right part and its scan passes every item from the start up to the whole divided one, or starts right behind the left part |
| SplitLists.CalmIff | delete.go:57-84 | no split of any item of a list disturbs a new item if and only if the new item does not go before what follows its origin inside of an item, nor before what follows the first character of a string that its scan passes |
| SplitLists.CalmAfterSplitIn | delete.go:57-84 | that condition is kept by every split |
| TextReplicas.ReceiveSplit | integrate.go:6-100 | on a whole document a split and an arriving item for whose list this holds commute: same store, same lists |
| TextReplicas.TextsConverge | doc.go:201-249 | two replicas that received the same items, of any length, and the same deletions, in any causal orders, cut into updates in any way, with deletions and splits at any time, have the same units deleted, show the same units in every list, and have the same entries of every map key, if for every item, when it comes, the condition of `SplitLists.CalmIff` holds in its list |
| TextReplicas.QuietIsCalm | integrate.go:104-121 | that condition can be read off the items alone: it holds in every causal order if it holds of every two of them, whichever comes first |
| TextReplicas.UnquietMoves | integrate.go:104-121 | and for every two items for which it does not hold there is a list with the one in it that shows different characters according to whether the other one arrives before or after a split |
| MovedText.DeletionMoves | delete.go:63-74 | two replicas receive client 3's p, q and w, client 2's "ab" after the w, client 1's y after the q, and the deletion of the a; where y comes before the deletion the text reads "pqwby", where it comes after "pqwyb" |
| Cells.TiledCoverage | store.go:41-58 | in a gap-free store getItem finds an item exactly for the clocks below getState, and it is the only one that covers the clock |
| Tiling.ApplyKeepsGapFree | delete.go:6-107 | splitting and deleting keep every client's items contiguous and never change the state vector |
| Tiling.TilingOverRuns | store.go:17-58 | over every run of in-order arrivals and delete ranges each client's items tile the clocks from 0, and getItem returns the unique covering item exactly below getState |
| Tiling.LocalSplitSorted | text.go:291-294 | a local text split appends its right half: the slice stays sorted and getState unchanged if and only if the split item was the last of its client; otherwise getState falls back to a clock that a later item holds |
| Authoring.LocalIsIntegrated | array.go:93-129 | in the list of one author, the next item with its left neighbour as origin is integrated exactly where Array.Insert linked it |
| Authoring.LocalIsIntegratedIff | array.go:93-129 | with several authors, local placement equals integration if and only if the new item belongs before the item it is put in front of |
| Authoring.PutKeepsAuthored | array.go:93-129 | the list of one author keeps its shape: disjoint items of that client, each right neighbour's origin at or before the end of its left neighbour |
| Authoring.SlotDivides | array.go:233-250 | findItemAtIndex divides the visible elements at the index, or at the end if there are fewer |
| Authoring.PutAllShows | array.go:93-129 | inserting values shows them, in order, between the visible elements before and after the slot; every other list is as before |
| Authoring.PutAllList | array.go:93-129 | inserted values become items right after each other in the list, each with the next clock of the author and the last unit before it as its origin, stored and recorded in this order |
| Authoring.PushAtEnd | array.go:37-65 | Push puts its items at the very end of the list, behind deleted ones |
| Authoring.InsertAfterVisible | array.go:233-250 | Insert puts its items right after the visible item before the index (the last visible one if the index is greater, the start of the list for index 0), in front of deleted ones |
| Authoring.SetLeaves | map.go:40-56 | Map.Set leaves one new entry with the next clock and without origins as the chain of its key, and records it; the entry it replaces is deleted, but its deletion is not recorded |
| Authoring.MarkShows | array.go:148-161 | marking visible elements i to j leaves exactly the others visible, in order |
| Authoring.EntryKeepsInv | map.go:40-56 | a new map entry keeps any document well formed |
| LocalEdits.ElementIsReceived | array.go:93-129 | what Array.Push and Array.Insert do to the document with one element is what integrateItem does with that element as it is sent (without its parent when it has an origin) |
| LocalEdits.DoKeepsLocal | array.go:23-162 | every Array and Map operation keeps the document one that its author alone could have made |
| LocalEdits.DoMeans | array.go:23-162 | each operation is, for every array and every map key, the plain sequence or value edit it stands for: index clamped to the end, ranges clamped to the array, nothing else changed |
| LocalEdits.DoAllMeans | map.go:28-91 | over every run of operations arrays are plain sequences and map entries plain values |
| Replication.KillSetIs | encoding.go:24-28 | the delete set of a transaction covers exactly the recorded IDs |
| Replication.ElementArrives | integrate.go:44-99 | the replica puts an element of an array where the author put it, although the wire form names no parent |
| Replication.EntryArrives | integrate.go:74-99 | the replica puts a new map entry at the head of its chain |
| Replication.DoFeeds | array.go:23-162 | after every operation the items and deletions collected so far would bring the replica to the author's state |
| Replication.Commit | doc.go:162-198 | applying the update of a transaction brings a synchronised replica to the author's new state, for every order in which the delete set is visited |
| Replication.SingleAuthor | doc.go:162-249 | for every session of transactions by one client, a fresh replica that applies the emitted updates in order has the same ToSlice for every array and the same Get for every key |
| Peers.AddAgrees | integrate.go:74-99 | in two documents with the same lists, with items of any authors and whatever is deleted in them, another peer links a locally put element where its author did if and only if the element belongs before its right neighbour |
| Peers.AssignAgrees | map.go:40-56 | another peer shows a locally set value if and only if its item belongs before the entry it replaced, whatever is deleted in either document |
| Peers.StepAgrees | integrate.go:44-121 | every local edit, deletion, or update applied by a peer can be taken by a peer that has the same lists, and the two have the same lists and current entries afterwards if and only if the edit was fair in that sense |
| Peers.StepFollows | doc.go:201-249 | after every fair step, deletions and received delete sets included, a listed item is deleted exactly if its ID is among those deleted here or received, and what is known but not stored yet stays in the delete set |
| Peers.PeersConverge | README.md:5 | peers that edit fairly, deletions included, and merge what they receive in any causal order show the same arrays and map values as soon as they have seen the same items and the same deletions |
| Peers.FrontInsertDiverges | array.go:84-125 | an unfair edit diverges although nothing is concurrent: client 2 pushes w, client 1 receives it and inserts v at index 0, client 2 receives v; one has [v, w], the other [w, v] |
| Peers.LaterSetLost | map.go:40-56 | the same for maps: client 2 sets a key, client 1 receives that and sets it again: client 1 shows its own value, client 2 keeps the old one for good |
| Peers.RightAfterOriginIff | integrate.go:62-86 | an arriving item lands right after the character it was typed after if and only if that character ends its item there and the new item belongs before the next one |
| Peers.InsertInsideMoves | integrate.go:64-65 | one client types "ab" and later c between the two characters: it shows "acb", every peer that got the two items shows "abc" |
| Snapshots.SnapshotRoundTrip | doc.go:287-298 | whatever one author did, with text put between items and tombstones in the gap unlinked: the restored document shows the same text or array exactly if no stored element of that name is deleted, linked or not, and the same value for a key exactly if its current entry is not deleted |
| Snapshots.UnlinkedReturns | text.go:204-228 | type a, delete it, type b at the start: nothing in the author's list is deleted, and the restored text shows both |
| SnapshotBytes.SnapshotReadBack | doc.go:287-298 | the bytes of the snapshot of one author, as EncodeStateAsUpdate makes them, are decoded to the items of the snapshot |
| SnapshotBytes.RestoreRoundTrip | doc.go:287-298 | the same two exact conditions for the document that is read from the bytes |
| SentOrder.RebuiltIff | protocol/update.go:564-641 | the items of a document that was built in causal order, sent by descending client, build the same store and lists if and only if no item has an origin of a client with a smaller ID; then they build the same document |
| SentOrder.SnapshotOfMany | doc.go:287-298 | through the bytes, for documents of several authors and clients sent in any order: a fresh document that decodes them has the same store and lists if and only if that holds |
| SentOrder.GreaterAuthorLost | doc.go:287-298 | client 1 types a, client 2 types b after it: the restored text shows only the a |
| TextSessions.RoundInStep | doc.go:162-249 | one transaction of an author with texts, and its update applied by a replica, keep the replica's items unsplit and the same, and deleted there exactly what was recorded |
| TextSessions.TextSession | doc.go:162-249 | for every session of one author that types strings between the items of texts (tombstones there unlinked), puts elements, sets entries and deletes, a fresh replica that applies the updates of the transactions shows the same texts, arrays and map values, whatever orders the map iteration takes |
| DiffSync.RestIs | encoding.go:209-218 | what is sent for a client is a contiguous run: exactly the items that start at or after the receiver's state |
| DiffSync.DiffIsMissing | encoding.go:204-220 | on item boundaries the diff holds exactly the items whose first clock the receiver lacks |
| DiffSync.DiffBrings | encoding.go:190-224 | between contiguous stores the diff brings every clock of the sender if and only if no item of the sender reaches across the receiver's state; then the state vector becomes the pointwise maximum |
| DiffBytes.DiffReadBack | encoding.go:190-224 | the bytes of the diff of several clients, sent in any order of clients, are read back as the same diff for the clients in descending order |
| DiffBytes.DiffArrives | encoding.go:190-224 | a receiver that decodes the bytes sent for its state vector has every clock of the sender afterwards if and only if no item of the sender reaches across its state; its state vector is then the pointwise maximum |
| Fragments.GapOrigin | text.go:49-56 | the origin of an insertion is the ID of the visible character before the index |
| Fragments.WalkEnds | text.go:100-146 | the walk of Text.Delete ends with exactly the asked-for visible characters gone, as far as there are that many |
| Fragments.WalkStraddle | text.go:115-132 | an item that reaches over the start of the range is split, and only its right part, at most the remaining length of it, is deleted |
| Items.StructStore.AddItem | store.go:36-38 | appends to the slice of the item's client and changes no other slice |
| Items.StructStore.GetItem | store.go:41-58 | the binary search returns the stored item that covers the ID, and nil exactly if none does |
| Items.SharedType.SetFirst | integrate.go:150-166 | sets the head of the list, or of the key's chain for a map; for a map without a key nothing |
| Items.Item.constructor | encoding.go:130-178 | a decoded item is not linked and is deleted exactly if its content says so |
| Linking.ScanRight | integrate.go:74-86 | walking the pointers from the left origin stops at the place that the specification computes, and never goes past the node of OriginRight |
| Linking.Join | integrate.go:88-99 | the four pointer assignments leave a doubly linked list with the item between its two neighbours |
| Integrator.IsDeleted | store.go:78-86 | the loop over the ranges says whether one of them covers the ID |
| Integrator.NamedType | integrate.go:22-42 | the type of a name, created with the kind its first item implies if the name is new; all other types stay |
| Integrator.FindParent | integrate.go:22-60 | the parent is the named type or the parent of the left origin, otherwise none; the document stays well formed |
| Integrator.FindPlace | integrate.go:62-86 | the scan over the heap list from the stored left origin ends between the two nodes of the computed place |
| Integrator.LinkItem | integrate.go:88-99 | relinking in place gives exactly the list with the item inserted at that place, with every pointer and head consistent; all other lists stay linked |
| Integrator.IntegrateItem | integrate.go:6-100 | on the object graph integrateItem takes the document to exactly what `Receive` makes of its state: known IDs skipped, unresolved parents stored but not linked, born-deleted flags set; a type that is created is a map for a value with a key, an array for one without, and a text otherwise |
| RangeDeleter.InsertIntoStore | delete.go:92-107 | shifting the slice puts the item at its place in clock order |
| RangeDeleter.SplitAtClock | delete.go:32-88 | splitting in place takes the document to exactly what `SplitAt` says, with links consistent in both directions; nothing changes at a boundary, for an unknown clock, or for content other than a string |
| RangeDeleter.MarkItems | delete.go:14-25 | the loop with its early exit marks exactly the items of the client that start in the range |
| RangeDeleter.ApplyDeleteRange | delete.go:6-26 | on the object graph a delete range takes the document to exactly what `ApplyRange` says |
| Updater.Accumulate | doc.go:207-219 | the ranges of the update are appended, client by client, to those of the document |
| Updater.IntegrateAll | doc.go:221-226 | the loop integrates the decoded items in order |
| Updater.ApplyDeletes | doc.go:232-241 | the whole accumulated delete set is applied, each range, the clients in any order |
| Updater.ApplyDecoded | doc.go:201-249 | ApplyUpdate after decoding: the document becomes what `Replicas.ApplyUpdate` makes of its state for some visiting order of the accumulated delete set |
| Arrays.FindItemAtIndex | array.go:233-250 | returns the node before the slot of the index, nil for index 0 |
| Arrays.Push | array.go:23-66 | the document and the transaction become what `Authoring.Push` says: links, store, head and pending items |
| Arrays.Insert | array.go:69-130 | the same for Insert, whose loop looks the previous item up in the store again |
| Arrays.Delete | array.go:133-162 | the same for Delete: exactly the visible elements in the range are marked and recorded, in order |
| Arrays.Get | array.go:165-181 | the visible element at the index, or nothing if there is none |
| Arrays.Len | array.go:184-196 | the number of visible elements |
| Arrays.ToSlice | array.go:199-211 | the visible contents in list order |
| Maps.Set | map.go:28-57 | the document and the transaction become what `Authoring.Set` says: old entry marked but not recorded, new entry stored, alone in its chain, recorded |
| Maps.Get | map.go:60-70 | the content of the head of the key's chain, or nothing if there is none or it is deleted |
| Maps.Delete | map.go:73-91 | the head is marked and recorded unless there is none or it is deleted already |
| Maps.Keys | map.go:94-106 | each key with a value exactly once, in some order |
| Texts.SplitItemAt | text.go:247-297 | the item is split in place at the offset, or for offset 0 the visible left neighbour is looked up; links stay consistent and the visible characters are the same |
| Texts.FindPositionAt | text.go:204-241 | returns the two nodes around the index in the list it leaves (split if the index is inside an item), skipping deleted items |
| Texts.Insert | text.go:30-82 | adds the characters of the new item to the visible ones at the index, clamped to the end, and nothing else; the item has the next clock and the right origin and is recorded; every item that was there keeps its characters, up to the split if the index is inside of it; deleted nodes around the place are unlinked, so that the new item has visible neighbours only, and the list stays doubly linked |
| Texts.Delete | text.go:85-146 | removes exactly the visible characters of the clamped range and records string items with exactly these, in order; every item that was there keeps its characters up to its first split; terminates although its own splits lengthen the list |
| Texts.String | text.go:150-163 | the text of the visible string items in order |
| Texts.Len | text.go:166-178 | the number of visible units |
| TextTransactions.RecordIsExact | text.go:85-146 | the ranges that a text deletion records cover the ID of each removed character and no other, have min(length, visible length minus index) clocks in all, and are pairwise disjoint if the visible characters have different IDs |
| TextTransactions.DeleteInTransaction | doc.go:162-198 | a transaction that deletes a range of a text sends a delete set with exactly the IDs of the characters that are gone, with these sizes and disjointness |
| TextTransactions.InsideMeans | text.go:247-297 | an edit falls strictly inside a visible item of the transaction exactly if the character at its index, or after its range, continues such an item |
| TextTransactions.EditOne | text.go:30-146 | one edit in a transaction is the plain edit for a reader; the strings of the transaction's items grow by exactly what is typed, or become shorter than that, according to whether the edit falls strictly inside one of them; which characters continue an item of the transaction afterwards is a function of the edit and of which did before |
| TextTransactions.EditAll | text.go:30-163 | over every sequence of inserts and deletes in one transaction String returns the result of the same edits on a plain string, and the items that are sent say all that was typed if and only if no edit falls strictly inside a visible item of the transaction, which can be told beforehand from the edits and from which visible characters continue such an item at the start (none, in a new transaction) |
| TextTransactions.InsideOwnInsertion | text.go:247-297 | of the two edits of an empty text, "abc" at 0 and x at 1, the second one falls inside |
| TextTransactions.SplitOwnInsertion | text.go:247-297 | "abc" and then x after the a, in one transaction: the text reads "axbc", the items of the transaction say "a" and "x" |
| TextTransactions.SplitReadBack | doc.go:177-190 | and a peer that decodes their bytes reads x at clock 1 instead of 3 |
| Transactions.DeletedSetIs | encoding.go:24-28 | the delete set built from the deleted items covers exactly their units |
| Transactions.ItemToEncoded | encoding.go:47-93 | the info byte built up field by field and the parent rule give the struct of the item |
| Transactions.EncodeUpdate | encoding.go:11-45 | the bytes of the items and the delete set, or of the empty update if encoding fails |
| Transactions.Transact | doc.go:162-198 | on the object graph a transaction of Array and Map operations takes the document to the composed edits and emits the bytes of exactly the collected items and deletions, nothing if there are none |
| Applying.EncodedToItem | encoding.go:130-178 | the item a struct stands for, unlinked, without a parent pointer, and deleted if and only if its ref is 1 |
| Applying.ParsedNotEmpty | protocol/update.go:171-195 | decoding never yields a client with an empty list of ranges |
| Applying.MakeItems | encoding.go:101-126 | the items in order, GC and Skip structs dropped |
| Applying.ApplyUpdate | doc.go:201-249 | from bytes on: undecodable bytes change nothing and are reported; others take the document to what the decoded update makes of it; every clock of a newly stored struct of ref 1 is deleted then, and no item that a reader sees in any list holds it |
| DeletedContent.GoneArrives | encoding.go:166-170 | an item with deleted content that an update brings is stored, every clock of it is deleted after the update, whatever ranges are applied in whatever order, and no reader sees any of them |
| Syncing.CurrentVector | store.go:26-33 | the state vector of the document |
| Syncing.EncodeStateVector | encoding.go:181-187 | its canonical bytes |
| Syncing.StartIndex | encoding.go:208-213 | the binary search finds the first item that ends after the state |
| Syncing.EncodeStateAsUpdate | encoding.go:190-224 | without bytes it never fails and gives the bytes of all stored items; for the bytes of any state vector those of the diff for it; no delete set, for some order of clients; an error for bytes that are no state vector |
| Restoring.DiffDecoded | encoding.go:190-224 | decoding what is sent for a state vector gives, as they are sent, exactly the stored items that end after the state of their client or whose client is not in it, by descending client and then by clock, and no deletion |
| Restoring.SendTo | encoding.go:190-224 | the same of the method, given the bytes of the state vector |
| Restoring.Snapshot | doc.go:285-289 | Snapshot never fails; decoding its bytes gives every stored item, as it is sent, nothing else, and no deletion |
| Restoring.RestoreDoc | doc.go:291-298 | no document for bytes that cannot be decoded; otherwise the document that the decoded update makes of an empty one |
| Restoring.RestoreOfMany | doc.go:285-298 | Snapshot and then RestoreDoc on the object graphs, for a document built in causal order by any number of authors: same store and lists if and only if no item has an origin of a client with a smaller ID |
| Restoring.RestoreOfAuthor | doc.go:285-298 | Snapshot and then RestoreDoc on the object graphs, for a document of one author: each array reads the same if and only if no element of it was ever deleted, each key of a map if and only if its current entry is not deleted |
| Sessions.SentIsAcceptable | doc.go:162-249 | a synchronised replica can take whatever a transaction of its author emits |
| Sessions.Round | doc.go:162-249 | one transaction on the author's objects and its bytes applied to the replica's objects leave the two synchronised again |
| Sessions.Replicate | doc.go:162-249 | end to end on two object graphs and through the bytes: after any session every array and every map entry reads the same in both documents |
| Varints.VarUintRoundTrip | protocol/varint.go:13-54 | every 64-bit value is read back and the bytes after it are untouched |
| Varints.PrefixFree | protocol/varint.go:13-30 | no encoding is a proper prefix of another one |
| Varints.Minimal | protocol/varint.go:13-30 | an encoding has k bytes exactly for the values that do not fit in fewer groups of seven bits |
| WireFormat.VarUintBytes | protocol/varint.go:13-30 | byte i of an encoding is bits 7i to 7i + 6 of the value, plus 128 unless it is the last byte |
| WireFormat.ReadVarUintBytes | protocol/varint.go:33-54 | on every byte string: the number ends at the first byte below 128 and is the sum of its groups of seven bits, the lowest first, modulo 2^64; it is an error if there is no such byte among the first ten |
| Varints.WriteVarUint | protocol/varint.go:13-30 | the loop over the ten-byte buffer stays inside it and writes the encoding |
| Varints.ReadVarUint | protocol/varint.go:33-54 | the loop with its 64-bit shifts returns what the parser specifies on every byte string, overflow and end of input included |
| Varints.VarBytesRoundTrip | protocol/varint.go:57-83 | a length-prefixed byte string is read back and the bytes after it are untouched |
| Varints.WriteVarBytes | protocol/varint.go:57-66 | writes the length and the bytes |
| Varints.ReadVarBytes | protocol/varint.go:69-83 | returns what the parser specifies on every byte string |
| AnyValues.RoundTrip | protocol/update.go:395-562 | whatever bytes follow, ReadAny after WriteAny gives the value back (int as int64, unknown kinds as nil) and consumes exactly what was written, nested arrays and objects with distinct keys included |
| AnyValues.ReadAny | protocol/update.go:395-473 | the recursive reader returns what the parser specifies and ends on every byte string; what that is for every tag is stated by the rows below |
| AnyValues.WriteAny | protocol/update.go:475-562 | the recursive writer appends what `Print` says, which is given in literal bytes for every kind of value by `WireFormat.AnyWritten` |
| WireFormat.AnyWritten | protocol/update.go:475-562 | the tag and the payload of every kind of value: 127 nil and unknown kinds, 120 true, 121 false, 125 an int or int64 as its 64-bit word, 122 a uint64, 124 and 123 the bits of floats, 119 a string and 116 bytes with their length, 117 and 118 the number of elements or fields and each of them |
| WireFormat.BareTagsRead | protocol/update.go:395-471 | 127 and 126 are read as nil, 121 as false, 120 as true; a byte below 116 or above 127 is no tag |
| WireFormat.NumberTagsRead | protocol/update.go:405-428 | 125 and a varint are read as the int64 of this word, 122 and a varint as a uint64 |
| WireFormat.FloatTagsRead | protocol/update.go:411-422 | 124 and four bytes, 123 and eight bytes are read as floats of these bits |
| WireFormat.BytesTagsRead | protocol/update.go:433-468 | 119, a length and as many bytes are read as a string, 116 likewise as a byte slice |
| WireFormat.ArrayRead | protocol/update.go:453-466 | 117, a number and as many encoded values, however each of them is encoded, are read as the slice of these values |
| WireFormat.ObjectRead | protocol/update.go:435-452 | 118, a number and as many keys with encoded values are read as a map with every key once, the last value of a key winning |
| StateVectors.StateVectorRoundTrip | protocol/update.go:94-137 | decoding the encoding gives the same map |
| StateVectors.Canonical | protocol/update.go:94-115 | the bytes are equal exactly if the maps are |
| StateVectors.SortDescending | protocol/update.go:99-105 | the keys in strictly descending order, whatever order the map iteration gives |
| StateVectors.Encode | protocol/update.go:94-115 | the stream writer produces those bytes |
| StateVectors.Decode | protocol/update.go:118-137 | the stream reader returns what the parser specifies on every byte string |
| UpdateFormat.StateVectorWritten | protocol/update.go:94-115 | a state vector in bytes: the number of clients, then for each its ID before its clock, greater clients first |
| UpdateFormat.StateVectorRead | protocol/update.go:118-137 | a number and as many pairs in any order are read as the map of every client to the clock that comes last for it |
| EncodedItems.ItemRoundTrip | protocol/update.go:200-380 | one struct is read back as written, at the clock the reader has counted to, with its length inferred from the content, and the bytes after it are untouched |
| EncodedItems.OneElementLost | protocol/update.go:306-326 | written to bytes and read back, a struct with an any-value is the same struct, with the value normalised, if and only if the value is not a slice of one element |
| EncodedItems.SliceOfTrue | protocol/update.go:306-326 | the slice [true] is read back from its bytes as true |
| EncodedItems.ReadItem | protocol/update.go:200-276 | the stream reader of a struct returns what the parser specifies on every byte string, with the UTF-16 length of a string counted as for valid UTF-8 |
| EncodedItems.WriteItem | protocol/update.go:643-693 | the stream writer of a struct appends what `Print` says or fails where it does |
| EncodedItems.ReadContent | protocol/update.go:290-380 | the content of every ref and its length, strings counted as for valid UTF-8 |
| EncodedItems.WriteContent | protocol/update.go:702-747 | the content of every ref that can be written |
| EncodedItems.CountUtf16 | protocol/update.go:383-392 | the loop counts the UTF-16 units of valid UTF-8 |
| UpdateFormat.UnitsOfRune | protocol/update.go:383-392 | a rune of four bytes counts two UTF-16 units, every other one counts one |
| UpdateFormat.ContentWritten | protocol/update.go:702-747 | the bytes of the content of every ref that can be written |
| UpdateFormat.StructWritten | protocol/update.go:643-700 | a struct in bytes: 0 or 10 and a length for GC and Skip; otherwise the info byte (the ref, 0x80 with a left origin, 0x40 with a right origin, 0x20 with a key), left origin, right origin, without both a 1 and the name of the parent or a 0 and its ID, the key, the content; an ID is the client before the clock |
| UpdateFormat.ParentRead | protocol/update.go:242-261 | a parent flag of 1 is followed by a name, every other flag by an ID |
| UpdateFormat.GapRead | protocol/update.go:208-220 | refs 0 and 10 are GC and Skip, whatever the other bits of the info byte say |
| UpdateFormat.ContentRead | protocol/update.go:290-380 | the content and the length that are read for refs 1, 2, 3, 4, 5 and 7; 0 and refs above 9 are an error |
| UpdateFormat.PairContentRead | protocol/update.go:341-376 | the same for refs 6 and 9: a string and an encoded value, of length 0 and 1 |
| UpdateFormat.ValuesContentRead | protocol/update.go:306-326 | the same for ref 8: a number and as many encoded values; one value is exposed by itself |
| Updates.UpdateRoundTrip | protocol/update.go:564-641 | decoding the encoding of any update the format can carry gives its items stably grouped by descending client, clocks rebuilt by summing lengths, and its delete set without empty lists |
| Updates.ClocksKept | protocol/update.go:147-169 | the items of a client come back with their own clocks exactly if they are contiguous |
| Updates.UpdateKept | protocol/update.go:139-198 | a contiguous update with normal values comes back as the same items and delete set |
| Updates.Decode | protocol/update.go:139-198 | the stream reader returns what the parser specifies on every byte string; clocks are summed without wrapping at 2^64, strings counted as for valid UTF-8 |
| Updates.Encode | protocol/update.go:564-641 | the stream writer, with its grouping map and sorts, produces what `Print` says or fails where it does |
| UpdateFormat.UpdateWritten | protocol/update.go:564-641 | an update in bytes: the number of clients; for each, greater clients first, the number of structs, the client, the clock of the first struct, and the structs in order; the number of clients with deletions; for each, greater clients first, the client, the number of ranges, and each range, the clock before the length |
| UpdateFormat.OneItemOneDeletion | encoding.go:11-93 | the literal bytes of the update of one item of the library and one deleted range, for every item, ID and range |
| Encoding.RunesRoundTrip | text.go:58-66 | rune count, UTF-16 length and the runes themselves agree for text of the basic multilingual plane |
| Encoding.StructAsItem | encoding.go:130-178 | the item of a struct, field by field; its content is deleted exactly for ref 1, a string with the same bytes exactly for ref 4, the value exactly for ref 8; an empty parent name is none |
| Encoding.KeptIs | encoding.go:107-115 | decodeUpdateV1 drops exactly the GC and Skip structs |
| UpdateFormat.DeletedStructRead | encoding.go:101-178 | the bytes in which a peer sends collected content (one struct, info byte 1, the name of its parent, a length) are decoded to one deleted item of that length |
| Encoding.CellRoundTrip | encoding.go:47-178 | an item of the library comes back from its struct, up to the parent that is not sent when there is an origin |
| Encoding.BytesRoundTrip | encoding.go:11-126 | items of one client in a row and a delete set come back from their bytes |
| Encoding.EmittedIsDecoded | encoding.go:11-126 | what a replica decodes from the bytes of any transaction is the update that the transaction emitted |

## Left out

- The WebSocket transport, the relay, the sync framing, awareness and XmlFragment.
- Observers, update handlers (the emitted bytes are a result instead), mutexes, random client IDs and nested `Transact` calls, whose operations join the outer transaction. Every operation is atomic. The panics outside of a transaction and on a name that is used for two kinds of type are preconditions.
- Resolution of `ParentID`, content refs 2 and 9 in documents (they are in the codec), and the values of content other than strings and any-values: a document keeps only the ref of such content.
- Items with `OriginRight` are integrated in the model as the code does it, and `SiblingOrder.RightOriginRight` says on which side of their right origin they stand, but the convergence theorems are for items without it, which is all the library produces. An item with only `OriginRight` never finds its parent and stays unlinked.
- Items whose origin lies inside a longer item are placed after the whole item, also in the model (`Peers.RightAfterOriginIff`, `Peers.InsertInsideMoves`), so no replication theorem of an author covers insertions inside of a text item.
- TextReplicas.TextsConverge: for delete sets that meet the condition of `RangeOrder.SettlesIff`. One way over whole runs; `SplitLists.CalmIff` is exact for one item and all splits of its list.
- Items of length 0 (format content, an empty slice of values), for which getItem finds nothing; the document model asks for length at least 1, the codec does not.
- Updates that arrive out of causal order: an item without its origin is stored but never linked, in the model as in the code, and no theorem about lists covers it; an item below the state of its client would unsort the store and is excluded by `Fits`.
- UTF-8 validity and code points outside of the basic multilingual plane, where runes and UTF-16 units differ. Floats are opaque bytes.
- Updates.Decode: sums clocks without wrapping at 2^64, and, like `EncodedItems.ReadItem` and `EncodedItems.ReadContent`, counts the UTF-16 length of a string as for valid UTF-8.
- Allocation sizes, and overflow of clocks and lengths near 2^64; varints and int64 any-values are exact 64-bit arithmetic.
- Types with an empty name: their items are sent without a usable parent and reach no other document, so replication is stated for operations on named types.
- Replicas.RunSettles: for items that arrive in clock order of their client, and delete sets that meet the condition of `RangeOrder.SettlesIff` after every update. The same holds for `Replicas.Reapply`.
- Replication.SingleAuthor: for arrays and maps, by the operations of the library. `TextSessions.TextSession` has texts, with steps that say between which items a string goes; that strings go between items is what `TextTransactions.EditAll` needs for a transaction to send all that was typed.
- Peers.PeersConverge: for elements, map entries and text put between shown items where no deleted item is unlinked; received deletions are of items of one clock. `Peers.StepAgrees` is exact for one step; over a run two unfair steps might cancel out.
- Integrator.NamedType: for a name that is not yet used for another kind of type; the library would link the item into a type of the wrong kind. The same holds for `Integrator.FindParent` and `Integrator.IntegrateItem`, which also need an item that is not below the state of its client.
- Updater.IntegrateAll: for items in clock order that use each name for one kind of type. The same holds for `Updater.ApplyDecoded`.
- Transactions.EncodeUpdate: for items that the format carries without loss, so not for slices or values of unknown kinds.
- Transactions.Transact: for operations of Array and Map, in a document whose items are all one clock long; values that do not survive the codec (slices, kinds it does not know) are excluded because the emitted bytes are related to the state.
- Applying.EncodedToItem: for strings of the basic multilingual plane. The same holds for `Applying.MakeItems`.
- Applying.ApplyUpdate: for bytes whose items come in causal order and use each type name for one kind of type, and whose strings are of the basic multilingual plane; undecodable bytes are covered without restriction.
- Texts.Insert: relates the list, the visible characters, the transaction and what is appended to the store, but not the order of the store, which a local split breaks; therefore texts under local editing are modelled beside `Doc.Valid` and not inside of it. The same holds for `Texts.Delete` and `TextTransactions.EditAll`.
- Snapshots.SnapshotRoundTrip: for one author, with text put between items. `SentOrder.SnapshotOfMany` is for several authors and compares stores and lists.
- SentOrder.SnapshotOfMany: for documents without gaps in which no item was split, and of items that the format carries without loss.
- SnapshotBytes.RestoreRoundTrip: for items that the format carries without loss. The same holds for `Restoring.Snapshot`, `Restoring.SendTo`, `Restoring.DiffDecoded` and `Restoring.RestoreOfMany`, which say what is decoded of stores without gaps.
- Restoring.RestoreOfAuthor: for documents from which `Text.Insert` has unlinked no deleted item, since others are outside of `Doc.Valid`; `SnapshotBytes.RestoreRoundTrip` has those too.
- Restoring.RestoreDoc: for bytes that `Applying.ApplyUpdate` covers.
- TextSessions.TextSession: the updates are the items and delete sets that are sent, not their bytes.
- Syncing.EncodeStateAsUpdate: for stores whose items have a parent and content that the format carries without loss; the order in which a Go map is iterated is an existential result, here and in the other loops over maps.
