# Guild queues and drop draws, modelled in Dafny

The guild queue manager keeps, for each queue of a guild, a list of people
waiting for an item. Masters add people, approve requests, remove people
and send the person at the front to the back. Members request to join. When
items drop in the game, a master starts a *drop*: for every selected queue a
session lists the first approved participants. Each listed person is then
accepted (they got the item), skipped or declined. Every decision is logged,
and the person goes to the end of the queue. A skip may pull the next
participant from the session's snapshot. Two result lists show the
picked-up and the missed decisions of the last day.

This project models that core. It has two stateful parts:

- `QueueStore.Store`: the queue mutators of the authentication context, as a
  class holding the item table (a map from item id to row), the queues and
  the signed-in user.
- `DropEngine.Engine`: the drop context, as a class holding the sessions, the
  focus, the logged rows and the two lists.

Around them sit the pure logic they rely on:

- `Positions`: what each mutator does to positions, and the density invariant
  (a queue of N items, of any status, occupies positions 1..N).
- `DropSession`: new sessions, the per-decision update, progress, the copy
  text and the reload partition.
- The small helpers of the panels and dialogs: the password hash, drop
  counts, the participant panel, the queue card, the queue edit dialog, the
  user form and the result lists.

Every database write that can fail takes a `Fault` parameter. `FailAt(k)`
means write `k` fails and nothing after it runs. Identifiers the database
would generate are parameters (`freshId`) or counters (`nextEventId`,
`nextRowId`).

## Model

| member | source | states |
|---|---|---|
| Common.FindQueue | components/drop-provider.tsx:181 | `queues.find`: None exactly when no queue has the id; otherwise a queue with that id that no earlier queue shares |
| Password.ToInt32 | lib/password-utils.ts:9 | `hash & hash` gives a signed 32-bit value and leaves one alone |
| Password.ToInt32Congruent | lib/password-utils.ts:9 | the 32-bit conversion differs from its input by a multiple of 2^32 |
| Password.HashCode | lib/password-utils.ts:6-10 | the loop's hash stays in the signed 32-bit range after every code unit |
| Password.Step | lib/password-utils.ts:8-9 | one turn leaves a signed 32-bit value that agrees with hash·31 + char modulo 2^32 |
| Password.Hex | lib/password-utils.ts:16 | `toString(16)` writes at least one digit |
| Password.HexRoundTrip | lib/password-utils.ts:16 | base-16 text uses only lowercase hex digits, starts with 0 only for zero, and reads back as the number written |
| Password.HexInjective | lib/password-utils.ts:16 | different numbers get different hex texts |
| Password.HashPassword | lib/password-utils.ts:2-17 | the loop with int32 wrap, the length salt, abs and hex yields `HashText`; the empty password gives "0" |
| Password.HashText | lib/password-utils.ts:2-16 | the hash text is never empty, and the empty password gives "0" |
| Password.HashTextShape | lib/password-utils.ts:4-16 | the hash text is a lowercase hex numeral without leading zeros whose value is abs(hash + 7·length), and "0" for "" |
| Password.SameTextIffSameMagnitude | lib/password-utils.ts:13-16 | two passwords, empty ones included, hash alike exactly when their salted hashes have the same absolute value |
| Password.VerifyPassword | lib/password-utils.ts:19-21 | true exactly when the password hashes to the stored text |
| DropCounts.GetDropCount | components/drop-input-panel.tsx:35 | 0 for a queue without an entry; a non-zero answer is a stored entry |
| DropCounts.UpdateDropCount | components/drop-input-panel.tsx:37-43 | the update keeps the length or adds one entry |
| DropCounts.UpdateKeepsPlaces | components/drop-input-panel.tsx:39-42 | with unique keys, every entry keeps its place; the queue's own entry takes max(0, n); an entry is added, last, exactly when the queue had none |
| DropCounts.UpdateThenGet | components/drop-input-panel.tsx:37-43 | after an update the queue reads max(0, n) and every other queue reads as before |
| DropCounts.Keys | components/drop-input-panel.tsx:48 | `Object.entries` yields one key per entry |
| DropCounts.UpdateKeys | components/drop-input-panel.tsx:39-42 | the spread keeps every key and adds only the updated one |
| DropCounts.KeysMembers | components/drop-input-panel.tsx:48 | a key is listed exactly when some entry carries it |
| DropCounts.UpdateKeepsUnique | components/drop-input-panel.tsx:39-42 | an update never duplicates a key |
| DropCounts.UpdateKeepsNonNegative | components/drop-input-panel.tsx:38 | the clamp keeps every stored count non-negative |
| DropCounts.TotalDrops | components/drop-input-panel.tsx:45 | the total of non-negative counts is non-negative |
| DropCounts.UpdateTotal | components/drop-input-panel.tsx:45 | the total changes by the new clamped count minus the old count of that queue |
| DropCounts.ValidDropCounts | components/drop-input-panel.tsx:48-53 | keeps exactly the entries with a positive count |
| DropCounts.ValidKeepsOrder | components/drop-input-panel.tsx:48-53 | the kept entries stay in the order of the object, which is the order the start of the drops walks |
| DropCounts.HandleStartDrops | components/drop-input-panel.tsx:47-58 | `onStartDrops` is called exactly when some count is positive, with exactly the positive entries, in the order `ValidDropCounts` keeps |
| Text.TrimStart | components/queue-edit-modal.tsx:54 | the leading white space is cut: the rest is a suffix that does not start with white space |
| Text.TrimEnd | components/queue-edit-modal.tsx:54 | the trailing white space is cut: the rest is a prefix that does not end with white space |
| Text.TrimEmptyIff | components/queue-edit-modal.tsx:54-59 | `!s.trim()` holds exactly when the string is all white space |
| Text.TrimShape | components/user-management-modal.tsx:44 | a trimmed string has no white space at either end and occurs in the original |
| Text.TrimMembers | components/user-management-modal.tsx:44 | trimming adds no character |
| Text.TrimIdempotent | components/user-management-modal.tsx:44 | trimming twice is trimming once |
| Text.Lower | components/participant-selection-panel.tsx:60 | `toLowerCase` keeps the length |
| Text.LowerAt | components/participant-selection-panel.tsx:60 | lower-casing works character by character |
| Text.IncludesIff | components/participant-selection-panel.tsx:60 | `includes` holds exactly when the term occurs at some offset |
| Ordering.InsertByPosition | components/queue-card.tsx:45 | one insertion step of the stable sort adds one item |
| Ordering.InsertMembers | components/queue-card.tsx:45 | the insertion holds the new item and the old ones, nothing else |
| Ordering.InsertKeepsOrder | components/queue-card.tsx:45 | inserting into a sorted list keeps it sorted |
| Ordering.InsertIsPermutation | components/queue-card.tsx:45 | the insertion adds exactly one occurrence |
| Ordering.SortByPosition | components/queue-card.tsx:45 | `sort((a, b) => a.position - b.position)` keeps the length |
| Ordering.SortOrders | components/queue-card.tsx:45 | the sort yields a list sorted by position with the same members |
| Ordering.SortIsPermutation | components/queue-card.tsx:45 | the sort is a permutation |
| Ordering.FilterSortHeadIsEarliest | components/drop-provider.tsx:272-277 | the head of filter-then-sort is the first passing item of least position: every passing item ahead of it lies strictly higher |
| Ordering.WithStatusOrdered | components/drop-provider.tsx:184-186 | filter-then-sort gives exactly the items of that status, sorted by position |
| Ordering.WithStatusCounts | components/drop-provider.tsx:184-186 | each item of that status keeps its multiplicity; other items vanish |
| Ordering.InsertKeepsUniqueIds | components/queue-card.tsx:45 | inserting an item with a new id keeps ids distinct |
| Ordering.SortKeepsUniqueIds | components/queue-card.tsx:45 | sorting keeps ids distinct |
| Ordering.WithStatusKeepsUniqueIds | components/drop-provider.tsx:184-186 | the approved list of a keyed queue is keyed |
| Positions.Range | components/auth-provider.tsx:204 | the positions 1..n |
| Positions.DenseIsExactRange | components/auth-provider.tsx:238-243 | a dense queue is one whose distinct positions are exactly 1..N |
| Positions.Top | components/auth-provider.tsx:197-204 | the highest position of the queue, None exactly for an empty queue |
| Positions.ShiftDown | components/auth-provider.tsx:238-242 | every row stays; only positions change, each by nothing or by one down |
| Positions.Removed | components/auth-provider.tsx:228-243 | only the removed row may go; every other row keeps all but its position, which drops by at most one |
| Positions.MovedToEnd | components/auth-provider.tsx:256-282 | every row stays and keeps all but its position |
| Positions.DenseTop | components/auth-provider.tsx:204 | on a dense queue the highest position is N |
| Positions.AppendedPosition | components/auth-provider.tsx:197-214 | an insert adds one row at N + 1 (1 on an empty queue) and changes no other row |
| Positions.RemovedEffect | components/auth-provider.tsx:228-243 | a missing item changes nothing; otherwise the row goes and exactly the later items of the queue move up by one |
| Positions.MoveToEndNeedsFront | components/auth-provider.tsx:256-258 | moveToEnd changes nothing unless the item is at position 1 |
| Positions.MoveToEndRotates | components/auth-provider.tsx:261-280 | on a dense queue the front item goes to N and every other item of the queue moves up one; other queues stay |
| Positions.MoveToEndSingle | components/auth-provider.tsx:261-280 | a queue with one item is left as it was |
| Positions.MoveToEndKeepsQueues | components/auth-provider.tsx:271-280 | moveToEnd, complete or interrupted, keeps every row and its queue |
| Positions.ApprovedOnlyStatus | components/auth-provider.tsx:293 | approval sets the status and changes nothing else, position included |
| Positions.AppendKeepsDense | components/auth-provider.tsx:204-214 | an insert keeps every queue dense |
| Positions.PlaceLastKeepsDense | components/auth-provider.tsx:204-214 | a row placed one past the end of a dense queue keeps it dense |
| Positions.RemoveKeepsDense | components/auth-provider.tsx:233-243 | a complete removal keeps every queue dense |
| Positions.MoveToEndKeepsDense | components/auth-provider.tsx:271-280 | a complete moveToEnd keeps every queue dense |
| Positions.ApproveKeepsDense | components/auth-provider.tsx:293 | approval keeps every queue dense |
| Positions.DeleteQueueKeepsDense | components/auth-provider.tsx:354 | deleting a queue with its items keeps the other queues dense |
| Positions.InterruptedMoveToEndBreaksDensity | components/auth-provider.tsx:271-282 | if the final write fails after the shift, a dense queue of two or more is no longer dense |
| Positions.RemoveAsWrittenLeavesGap | components/auth-provider.tsx:238-243 | when the shift of a removal throws, removing any item but the last of a dense queue leaves it not dense |
| Positions.MoveToEndAsWrittenIdle | components/auth-provider.tsx:270-282 | when the shift throws, moveToEnd of the front item of a dense queue of two or more changes nothing, though the complete move would |
| QueueStore.Entries | components/auth-provider.tsx:95-101 | the row-to-entry mapping keeps the length |
| QueueStore.Grouped | components/auth-provider.tsx:91-103 | one entry per queue, in the order of the queues |
| QueueStore.RefreshGroupsByQueue | components/auth-provider.tsx:72-109 | each refreshed queue holds exactly the items whose queue_id is its id, each once and as the table has it, in ascending position |
| QueueStore.Store.constructor | components/auth-provider.tsx:47-51 | an empty store is valid and dense |
| QueueStore.Store.TopPosition | components/auth-provider.tsx:197-204 | the descending-order lookup returns the queue's highest position, which some row of the queue holds |
| QueueStore.Store.AddPersonToQueue | components/auth-provider.tsx:192-221 | a master inserts an approved row at the next position, requested by themself; anyone else changes nothing; density is kept |
| QueueStore.Store.RequestToJoinQueue | components/auth-provider.tsx:302-331 | a signed-in "user" inserts a waiting row under their own name at the next position; anyone else changes nothing; density is kept |
| QueueStore.Store.RemovePersonFromQueue | components/auth-provider.tsx:223-249 | a master's removal is `Removed` (no-op for a missing item); a complete one keeps density |
| QueueStore.Store.MoveToEnd | components/auth-provider.tsx:251-287 | a master's move is `MovedToEnd`; a complete one keeps density |
| QueueStore.Store.ApproveRequest | components/auth-provider.tsx:289-300 | a master's approval sets the status only; density is kept |
| QueueStore.Store.CreateQueue | components/auth-provider.tsx:333-349 | a master appends a queue owned by themself; items stay |
| QueueStore.Store.DeleteQueue | components/auth-provider.tsx:351-362 | a master's delete drops the queue and, by cascade, its items; density is kept |
| QueueStore.Store.Signup | components/auth-provider.tsx:142-182 | a username with a space is refused before any write; otherwise the new "user" account is signed in exactly when the insert succeeds |
| DropSession.DropItems | components/drop-provider.tsx:217-222 | the item mapping keeps the length |
| DropSession.Listed | components/drop-provider.tsx:191-192 | at most `count` items are listed |
| DropSession.ListedIsTakeOfFilter | components/drop-provider.tsx:191-192 | the list equals `filter(participant).slice(0, count)` |
| DropSession.HasIdIff | components/drop-provider.tsx:317 | `some(c => c.id === id)` holds exactly when an entry has that id |
| DropSession.NewSessionLists | components/drop-provider.tsx:212-237 | the snapshot follows the approved items and the list follows the first `count` participants, item by item |
| DropSession.NewSessionSnapshot | components/drop-provider.tsx:217-224 | a new session has processedCount 0, totalCount `count`, and a snapshot of every approved item in ascending position |
| DropSession.NewSessionCurrentFrom | components/drop-provider.tsx:191-236 | every listed item is an approved participant of the queue, and `currentItem` is the head or null |
| DropSession.NewSessionCurrentFirst | components/drop-provider.tsx:184-192 | the list is the first `count` approved participants in ascending position: as long as `count` allows, and none left out stands ahead of one taken |
| DropSession.NewSessionDistinct | components/drop-provider.tsx:192 | a session built from a keyed queue lists no item twice |
| DropSession.HasApprovedIff | components/drop-provider.tsx:188 | `approvedItems.length === 0` exactly when no item is approved |
| DropSession.EventRows | components/drop-provider.tsx:200-208 | one event row per pick |
| DropSession.Sessions | components/drop-provider.tsx:212 | one session per pick |
| DropSession.EventRowAt | components/drop-provider.tsx:200-208 | the i-th row belongs to the i-th pick, with its count and creator, under event id first + i |
| DropSession.SessionAt | components/drop-provider.tsx:212-239 | the i-th session is the i-th pick's session under event id first + i |
| DropSession.EventIdsFrom | components/drop-provider.tsx:200-214 | rows and sessions carry exactly the ids handed out from `first` on |
| DropSession.SessionsListParticipants | components/drop-provider.tsx:191-243 | every name a new session lists is a participant, so the clean-up pass has nothing to do |
| DropSession.PlannedPicks | components/drop-provider.tsx:180-204 | every session is for a known selected queue with approved items and a count within 0..5; unknown queues and queues without approved items get none |
| DropSession.SessionsDistinct | components/drop-provider.tsx:192 | over keyed queues no new session lists an item twice |
| DropSession.PlannedStopsAtFailure | components/drop-provider.tsx:210-248 | after a failed insert no later entry adds anything |
| DropSession.OversizedCountFails | components/drop-provider.tsx:200-210 | a count above 5 for a queue with approved items makes the insert fail |
| DropSession.LowestIsEarliestMinimum | components/drop-provider.tsx:314-319 | a replacement exists exactly when some snapshot item is a candidate; it has the least position, earliest among equals |
| DropSession.Without | components/drop-provider.tsx:307 | the filter never lengthens the list |
| DropSession.WithoutMembers | components/drop-provider.tsx:307 | exactly the entries with another id survive |
| DropSession.WithoutKeepsDistinct | components/drop-provider.tsx:307 | removing entries keeps ids distinct |
| DropSession.ProcessNext | components/drop-provider.tsx:304-334 | the map keeps one session per session |
| DropSession.ProcessNextAt | components/drop-provider.tsx:304-334 | sessions of other queues come back unchanged; the decided queue's session gets the update |
| DropSession.ProcessNextKeeps | components/drop-provider.tsx:304-334 | every session keeps its queue and event, and lists stay free of repeated ids |
| DropSession.ProcessNextBelow | components/drop-provider.tsx:304-334 | event ids stay below any bound they were below, and lists without repeated ids keep that property |
| DropSession.Processed | components/drop-provider.tsx:304-331 | the decided session keeps its queue, counts one more processed item, and shows the head of its new list |
| DropSession.ProcessedEffect | components/drop-provider.tsx:307-331 | processedCount grows by exactly 1; snapshot, target, event and queue stay; every entry with the id leaves; the rest keep their order; at most one item is appended; `currentItem` is the new head |
| DropSession.ReplacementOnlyOnSkip | components/drop-provider.tsx:312-324 | the callers at lines 388, 430 and 472 pull only on skip: accept and decline never append; skip appends at most one, and only while the snapshot is longer than the new count |
| DropSession.ReplacementIsLowestEligible | components/drop-provider.tsx:312-323 | the appended item is the lowest-position snapshot participant not listed, earliest of equals, at the end; with one available and room left, one is appended |
| DropSession.ProcessedKeepsDistinct | components/drop-provider.tsx:317 | a list without repeated ids keeps that property |
| DropSession.SkipCanRepullSameItem | components/drop-provider.tsx:314-323 | with the snapshot never refreshed, the just-skipped person is pulled straight back |
| DropSession.NextFocus | components/drop-provider.tsx:337-349 | the event id is cleared exactly when no session is in focus; a focused session is one of the sessions and lists someone |
| DropSession.NextFocusChoice | components/drop-provider.tsx:337-349 | the focus lists someone; it is missing (and the event id cleared) exactly when no session lists anyone; the decided queue keeps it while it lists someone |
| DropSession.TotalProgress | components/drop-provider.tsx:492-496 | the fraction's denominator is positive |
| DropSession.ProcessNextProgress | components/drop-provider.tsx:492-496 | a decision adds one to Σprocessed per session of the queue and leaves Σtotal alone |
| DropSession.ProgressCanExceedTarget | components/drop-provider.tsx:492-496 | skips count and the snapshot outlives the target, so progress reaches 200% on a one-item target |
| DropSession.ProgressNeverDecreases | components/drop-provider.tsx:492-496 | a decision never lowers the total progress |
| DropSession.Names | components/drop-provider.tsx:509 | the names keep the list's length |
| DropSession.JoinLength | components/drop-provider.tsx:514 | the joined text is as long as the parts plus one separator between each two neighbours |
| DropSession.JoinSnoc | components/drop-provider.tsx:514 | joining one more part appends the separator and that part |
| DropSession.JoinPrefixes | components/drop-provider.tsx:514 | joining the first parts gives a prefix of joining them all |
| DropSession.CopyText | components/drop-provider.tsx:504-514 | no text without a session for the queue; a text comes only from a session of the queue that lists someone |
| DropSession.CopyTextNames | components/drop-provider.tsx:504-514 | the text starts with the label, ": ", and the listed names in order, joined by ", " |
| DropSession.CopyTextShape | components/drop-provider.tsx:504-514 | there is text exactly when the first session of the queue lists someone; it opens with the item name, ": " and the first listed name |
| DropSession.EnrichedAll | components/drop-provider.tsx:137-147 | every logged row is enriched once, in order |
| DropSession.EnrichedAt | components/drop-provider.tsx:139-146 | the i-th row carries its event's queue label (or "Unknown Item") and image |
| DropSession.ItemLabel | components/drop-provider.tsx:144 | `queue?.item_name \|\| "Unknown Item"`: never empty, and either the fallback or the queue's own item name |
| DropSession.Split | components/drop-provider.tsx:148-152 | each row lands in exactly one list |
| DropSession.Partition | components/drop-provider.tsx:137-153 | each logged row lands in exactly one list |
| DropSession.SplitIsFilter | components/drop-provider.tsx:148-152 | picked-up is exactly the accepted rows and missed exactly the others, each in order; together they hold every row |
| DropSession.PartitionRowsFrom | components/drop-provider.tsx:137-153 | every listed row is a logged decision with its list's action |
| DropEngine.IndexOfId | components/drop-provider.tsx:281 | `findIndex`: the first index holding the id, or none (-1) exactly when no entry has it |
| DropEngine.NextParticipant | components/drop-provider.tsx:271-277 | none exactly when no approved participant outside the list is left; otherwise such an item with the least position, and the earliest in the queue among those of equal position |
| DropEngine.NonParticipants | components/drop-provider.tsx:262 | exactly the entries whose name is not a participant, never longer than the list, and empty when every name is a participant |
| DropEngine.Substituted | components/drop-provider.tsx:279-293 | with a replacement only the first entry with the id is replaced and every other entry stays in place; without one exactly the entries with another id remain |
| DropEngine.ReplacedAll | components/drop-provider.tsx:265-297 | handling the strangers never lengthens the list |
| DropEngine.MovesOf | components/drop-provider.tsx:265-268 | one moveToEnd of the session's queue per stranger, in order |
| DropEngine.MovedAllAppend | components/drop-provider.tsx:257-268 | moving for one batch and then another is moving for both in turn |
| DropEngine.ReplaceStrangers | components/drop-provider.tsx:265-297 | the list becomes `ReplacedAll` (each stranger in turn substituted against the list left so far); a master's table takes the strangers' moves in order; with no stranger nothing changes |
| DropEngine.ReplaceNext | components/drop-provider.tsx:266-294 | one inner turn: one more stranger moved and substituted |
| DropEngine.Cleaned | components/drop-provider.tsx:257-299 | the clean-up never lengthens a session's list |
| DropEngine.CleanedAll | components/drop-provider.tsx:257-299 | one cleaned session per session |
| DropEngine.CleanedAllAt | components/drop-provider.tsx:257-299 | the i-th cleaned session is the i-th session with only its list cleaned |
| DropEngine.CleanOne | components/drop-provider.tsx:257-298 | one outer turn: the list becomes `Cleaned`, a master's table takes the session's moves, and a participant-only list changes nothing |
| DropEngine.ReplaceOneKeepsClean | components/drop-provider.tsx:279-293 | a substitution keeps ids distinct, and every entry a participant or an original one no handled stranger shares an id with |
| DropEngine.ReplacedAllClean | components/drop-provider.tsx:265-297 | after all strangers of a keyed list, ids are distinct and every entry is a participant or an original no stranger shares an id with |
| DropEngine.CleanedListsParticipants | components/drop-provider.tsx:256-299 | for a shown queue the cleaned list names only participants; ids stay distinct |
| DropEngine.Kept | components/drop-provider.tsx:542-546 | (and lines 577-581 alike) the rows that survive are exactly those outside the window or of another action |
| DropEngine.SessionOf | components/drop-provider.tsx:357 | `activeDrops.find`: None exactly when no session is for the queue |
| DropEngine.RecentIds | components/drop-provider.tsx:532-540 | the ids of the window's events |
| DropEngine.RecentEvents | components/drop-provider.tsx:112-116 | exactly the logged events of the window; newest first when the log is in creation order |
| DropEngine.RowsOf | components/drop-provider.tsx:124-128 | exactly the rows of those events; newest first when the rows are in creation order |
| DropEngine.InsertOne | components/drop-provider.tsx:181-239 | one loop turn keeps rows, sessions and the last event id in step with the plan |
| DropEngine.InsertEvents | components/drop-provider.tsx:177-240 | the loop inserts exactly the planned rows and sessions, stops at the first failure, and leaves the last event id as the current one |
| DropEngine.Engine.constructor | components/drop-provider.tsx:88-98 | no sessions, focus, event id or participants |
| DropEngine.Engine.RecordEvents | components/drop-provider.tsx:200-239 | the inserted rows are appended and the current event id set |
| DropEngine.Engine.StartDrops | components/drop-provider.tsx:170-253 | a non-master changes nothing; a master records the participants and the planned rows; on success the sessions are published with the first in focus; a failure publishes nothing; sessions stay keyed |
| DropEngine.Engine.Publish | components/drop-provider.tsx:243-246 | the clean-up finds nothing; the sessions are published, the first in focus; `hasActiveDrops` holds exactly when there is a session |
| DropEngine.Engine.FilterNonParticipants | components/drop-provider.tsx:256-299 | each session keeps everything but its list, which becomes `Cleaned`; a master's table takes every clean-up move in turn; no list grows; nothing happens when every listed name is a participant |
| DropEngine.Engine.Decide | components/drop-provider.tsx:356-479 | no session or a failed log changes nothing; otherwise the row is logged, the item moved to the end, the row listed as picked up or missed, and processNextItem run with a replacement only on skip |
| DropEngine.Engine.LogRow | components/drop-provider.tsx:363-374 | the logged row is appended under the next row id |
| DropEngine.Engine.ListRow | components/drop-provider.tsx:380-385 | an accept joins the picked-up list, a skip or decline the missed list |
| DropEngine.Engine.ProcessNextItem | components/drop-provider.tsx:302-353 | sessions become `ProcessNext`, focus and event id as `NextFocus` says; nothing else changes; keyed stays keyed |
| DropEngine.Engine.ResetDrops | components/drop-provider.tsx:482-489 | sessions, focus, event id and participants go; the lists and tables stay; no active drops |
| DropEngine.Engine.ClearPickedUpList | components/drop-provider.tsx:525-557 | the window's accepted rows are deleted and the list emptied; a failed read or delete changes nothing |
| DropEngine.Engine.ClearMissedList | components/drop-provider.tsx:560-592 | the window's skipped and declined rows are deleted and the list emptied; a failure changes nothing |
| DropEngine.Engine.SetLists | components/drop-provider.tsx:155-156 | both lists are replaced |
| DropEngine.Engine.LoadExisting | components/drop-provider.tsx:100-167 | with a user and queues, the lists become the partition of the window's rows when both reads succeed and find rows; otherwise nothing changes |
| Participants.BeforeIrreflexive | components/participant-selection-panel.tsx:55 | no name sorts before itself |
| Participants.BeforeTransitive | components/participant-selection-panel.tsx:55 | the sort order is transitive |
| Participants.BeforeTotal | components/participant-selection-panel.tsx:55 | of two different names one sorts first |
| Participants.AscendingNoDups | components/participant-selection-panel.tsx:55 | a strictly ascending list has no repeats |
| Participants.InsertName | components/participant-selection-panel.tsx:55 | one insertion step adds one name |
| Participants.SortNames | components/participant-selection-panel.tsx:55 | `sort()` keeps the length |
| Participants.SortNamesSorts | components/participant-selection-panel.tsx:55 | the sort keeps every name with its multiplicity and orders distinct names strictly |
| Participants.ApprovedBeforeAll | components/participant-selection-panel.tsx:49-52 | scanning every item finds exactly the approved names of the queue |
| Participants.AvailableUsers | components/participant-selection-panel.tsx:43-56 | strictly ascending, and a name is offered exactly when it is approved in a queue with a drop count |
| Participants.FilteredUsers | components/participant-selection-panel.tsx:59-61 | exactly the offered names whose lower-cased form contains the lower-cased term |
| Participants.FilteredUsersOrder | components/participant-selection-panel.tsx:59-61 | the search keeps the order, and an empty term shows every name |
| Participants.Matches | components/participant-selection-panel.tsx:59-61 | an empty search term matches every name |
| Participants.Remove | components/participant-selection-panel.tsx:73 | `Set.delete` drops exactly that name |
| Participants.RemoveKeepsNoDups | components/participant-selection-panel.tsx:73 | deleting keeps the selection free of repeats |
| Participants.RemoveAbsent | components/participant-selection-panel.tsx:73 | deleting a name not there changes nothing |
| Participants.Toggle | components/participant-selection-panel.tsx:68-78 | the toggled name is in the result exactly when it was not selected; every other name keeps its membership |
| Participants.ToggleFlips | components/participant-selection-panel.tsx:68-78 | a toggle flips the toggled name and no other and keeps the selection free of repeats |
| Participants.ToggleTwice | components/participant-selection-panel.tsx:68-78 | toggling twice restores the same names, and the same sequence when the name was absent |
| Participants.Panel.constructor | components/participant-selection-panel.tsx:43-66 | the offered names are computed and all of them start selected |
| Participants.Panel.ToggleUser | components/participant-selection-panel.tsx:68-78 | the selection is toggled at that name |
| Participants.Panel.SelectAll | components/participant-selection-panel.tsx:80-82 | the selection becomes every offered name |
| Participants.Panel.DeselectAll | components/participant-selection-panel.tsx:84-86 | the selection becomes empty |
| Participants.Panel.Confirm | components/participant-selection-panel.tsx:88-90 | nothing is emitted while the selection is empty; otherwise exactly the selection |
| QueueCard.Tabs | components/queue-card.tsx:45-46 | each tab is sorted by position and holds exactly its status's items with their multiplicity; completed items are in neither |
| QueueCard.AddableUsers | components/queue-card.tsx:75-77 | exactly the "user" accounts that requested no item of the queue |
| QueueCard.ApprovedItems | components/queue-card.tsx:45 | exactly the approved items of the queue |
| QueueCard.WaitingItems | components/queue-card.tsx:46 | exactly the waiting items of the queue |
| QueueCard.RowsFrom | components/queue-card.tsx:161-177 | one row per item from the given index on |
| QueueCard.ApprovedRows | components/queue-card.tsx:161-177 | one row per approved item; the first row shows the first item and carries the move control |
| QueueCard.RowsFromAt | components/queue-card.tsx:161-177 | the row of item k is ranked k + 1, shows that item, and carries the control as the card places it |
| QueueCard.ApprovedRowsShape | components/queue-card.tsx:161-177 | one row per approved item, in order, ranked index + 1; the move control is on a row exactly when it is the first; on a sorted tab that row holds the lowest position |
| QueueCard.MoveControlAsWrittenCanBeIdle | components/queue-card.tsx:168-177 | on a dense queue with a waiting item at position 1 and an approved one at 2, the card puts the control on the approved item, the corrected placement does not, and a click there changes nothing |
| QueueCard.MoveControlRotates | components/queue-card.tsx:168-177 | where the corrected control is offered, a click sends the item to N and moves the others up one |
| QueueCard.AddForm.constructor | components/queue-card.tsx:42-43 | no user selected and the form closed |
| QueueCard.AddForm.Open | components/queue-card.tsx:118 | the form opens, keeping the choice |
| QueueCard.AddForm.Choose | components/queue-card.tsx:124 | the choice is recorded |
| QueueCard.AddForm.Cancel | components/queue-card.tsx:140 | the form closes, keeping the choice |
| QueueCard.AddForm.Submit | components/queue-card.tsx:48-59 | without a selected user nothing happens; otherwise addPersonToQueue runs with the user id as the name and the form resets |
| QueueEdit.NormalImage | components/queue-edit-modal.tsx:29 | `image_url \|\| null`: a missing or empty URL becomes null, any other stays |
| QueueEdit.FormOf | components/queue-edit-modal.tsx:26-30 | the form copies title and item name; its image is null or the queue's own non-empty URL |
| QueueEdit.HasChanges | components/queue-edit-modal.tsx:42-48 | changes exist exactly when the form differs from the queue's own form |
| QueueEdit.Diff | components/queue-edit-modal.tsx:66-78 | a field is in the update exactly when it differs (the image against `image_url \|\| null`), texts trimmed and the image as chosen; the update is non-empty exactly when there are changes |
| QueueEdit.BuildUpdates | components/queue-edit-modal.tsx:66-78 | each field is sent exactly when it differs, titles trimmed and the image as chosen; the update is non-empty exactly when there are changes |
| QueueEdit.EditDialog.constructor | components/queue-edit-modal.tsx:26-30 | the form starts as the queue's, without changes |
| QueueEdit.EditDialog.Edit | components/queue-edit-modal.tsx:105-146 | the form takes the typed values |
| QueueEdit.EditDialog.Cancel | components/queue-edit-modal.tsx:94-101 | the form goes back to the queue's values |
| QueueEdit.EditDialog.Save | components/queue-edit-modal.tsx:51-91 | non-masters are ignored; a blank title or item name is refused before any write; the update sent is `Diff` of form and queue, and is sent exactly when something changed |
| UserForm.Validate | components/user-management-modal.tsx:32-42 | missing exactly when a trimmed field is empty; a space in the untrimmed username refuses next; valid means both trimmed fields are non-empty and the username has no space |
| UserForm.Dialog.constructor | components/user-management-modal.tsx:22-25 | empty form, no user being edited, no error |
| UserForm.Dialog.Create | components/user-management-modal.tsx:27-52 | a failed check shows its message and makes no call; a call gets the trimmed values; the form clears only on success |
| UserForm.Dialog.Update | components/user-management-modal.tsx:54-80 | nothing without a user being edited; the same checks; a call with the trimmed values; the edit closes only on success |
| UserForm.CallsAreClean | components/user-management-modal.tsx:32-49 | a call is only made with a non-blank name and a non-blank username without spaces |
| ResultLists.TallyIsCount | components/picked-up-list.tsx:27-30 | the reduce's count is the number of rows of that event |
| ResultLists.Tally | components/picked-up-list.tsx:27-30 | an event's count never exceeds the number of rows |
| ResultLists.DropNumber | components/picked-up-list.tsx:25-33 | getDropNumber returns the number of rows of that event |
| ResultLists.TallyZeroIff | components/missed-list.tsx:32 | 0 exactly when no row has that event |
| ResultLists.TallyOfRenderedRow | components/picked-up-list.tsx:65-93 | a rendered row's own badge is between 1 and the list's length |
| ResultLists.TallyOrderFree | components/missed-list.tsx:27-30 | the badge does not depend on the order of the rows |
| ResultLists.ActionLabel | components/missed-list.tsx:43-53 | "Skipped" exactly for a skip, "Declined" for anything else |

The two result lists share their `getDropNumber`. `ResultLists.DropNumber`
models both `components/picked-up-list.tsx:25-33` and
`components/missed-list.tsx:25-33`, and the rendered-row lemma covers
`components/missed-list.tsx:86,117` as well.

## Left out

- Supabase I/O is replaced by in-memory tables. Reads always succeed, except in the drop reload and the two clears, where a failed read is modelled.
- The 24-hour window of the reload and the clears is a parameter: the set of event ids created in it. The clock is not modelled.
- The clipboard write in `copyDropResults` is left out. Only its text is modelled.
- The percentage of `getTotalProgress` is an exact fraction (numerator, denominator), not a floating-point number.
- Loading and `isProcessing` flags, alerts, `console` output, `localStorage`, login and logout are left out. They are environment effects.
- React state batching and async interleaving are left out. Each action is one atomic step.
- `createUser`, `updateUser`, `updateQueueDetails` and the `users` list are not defined in the authentication context shown. Their outcomes are parameters (`success`, `updateOk`, `insertOk`).
- The `on delete cascade` of queue_items is modelled inside `DeleteQueue`. The other foreign keys are not modelled.
- A write against a row that another client removed since the view was read surfaces as a `Fault` on that write.
- Text.Lower: only ASCII letters are lower-cased. JavaScript's full Unicode case mapping is not modelled.
- Participants.SortNames: compares UTF-16 code units as `char` values. Surrogate pairs are not modelled.
- Password.HashPassword: the input is the password's UTF-16 code units (`charCodeAt`), given as integers.
- `components/drop-management-panel.tsx` calls `startDrops` without participants. That caller is not part of this model.
- QueueCard.AddForm.Submit: the card's `catch` is not modelled. addPersonToQueue catches its own errors, so that branch never runs.
- The two position shifts build their new value with `supabase.sql` (components/auth-provider.tsx:240 and :273), a tag the client created at lib/supabase.ts:6 does not have, so as written each shift throws. The `NoFault` runs model the intended server-side decrement. The as-written runs are `FailAt(1)` for a removal and `FailAt(0)` for moveToEnd; see "Findings".
- The shared queue list the drop context reads is refreshed with only id, title and items (components/auth-provider.tsx:91-101), so `item_name` and `image_url` are undefined there. As written, every drop label is then "Unknown Item" and the copy text starts with "undefined: ". `QueueInfo` keeps both as `Option` fields, and `Shown(None)` is "undefined".
- DropSession.NewSession: carries no `ensures` of its own. NewSessionLists, NewSessionSnapshot, NewSessionCurrentFrom, NewSessionCurrentFirst and NewSessionDistinct state what it builds.
- Positions.Appended: carries no `ensures` of its own. AppendedPosition and AppendKeepsDense state what an insert does.
- DropEngine.Engine.HasActiveDrops: the one-line predicate carries no `ensures`. The contracts of the constructor, StartDrops, Publish and ResetDrops state its value.
- QueueStore.Store.RemovePersonFromQueue: density is proved only for complete removals of an item of the named queue. An interrupted removal leaves a gap, as in the source.

## Findings

| source | as written | input that shows it | evidently intended | confidence | as-written member | corrected member |
|---|---|---|---|---|---|---|
| components/queue-card.tsx:168-177 | the move-to-end control sits on the first approved item (`index === 0`) | a queue with a waiting item at position 1 and an approved item at position 2 shows the control on the approved item; moveToEnd only acts at position 1, so the click changes nothing | the control acts on the first approved item: offer it only where that item stands at position 1 | not executed | QueueCard.MoveControlAsWrittenCanBeIdle | QueueCard.MoveControlRotates |
| components/auth-provider.tsx:238-243 | after the delete, the shift of later positions is built with `supabase.sql`, which the client does not have, so it throws and no position moves | a dense queue of three; removing the item at position 1 leaves positions 2 and 3 | the later items of the queue move up by one, keeping positions 1..N | not executed | Positions.RemoveAsWrittenLeavesGap | Positions.RemoveKeepsDense |
| components/auth-provider.tsx:270-282 | the shift of moveToEnd is built with the same missing tag, so it throws before any write | a dense queue of two; moveToEnd of the front item leaves both rows where they were | the front item goes to N and the others move up by one | not executed | Positions.MoveToEndAsWrittenIdle | Positions.MoveToEndRotates |
