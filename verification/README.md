# Ride queue tracker — a Dafny model of its queue logic

The ride-wait-time tracker sells bracelet tickets at a cashier desk. It queues each visitor for one
ride, lets the ride operator (instructor) complete rides by bracelet code, and shows waiting times
on three boards: public, cashier and visitor. Devices keep each other up to date through a small
WebSocket relay server.

This project models the logic behind that in Dafny, as pure functions over immutable sequences:

- **`QueueStore` / `QueueStoreProofs`** (`queue_store.dfy`): the zustand queue store. It covers
  add at the next position, remove followed by renumbering of the affected attraction, the
  per-attraction summary, and the attraction view sorted by position. `QueueStoreProofs` proves
  the "well-formed store" invariant: distinct ids and codes, known attractions, and positions
  1..k per attraction in array order. It also proves how add and remove move the summary.
- **`LocalQueue` / `LocalQueueProofs`** (`local_queue.dfy`): the localStorage queue hook. Entries
  carry a status, a remove marks them completed and never renumbers, and waits are counted
  `(position - 1) * duration`. An inbound `queue-sync` replaces the queue.
- **`Settings`, `SettingsStore`, `LocalSettings`** (`settings.dfy`): the two settings registries.
  They cover the catalog defaults, the single-attraction duration update, the
  truthy fallback chain of `getDuration`, reset, and wholesale replacement.
- **`Protocol`, `Hub`, `HubProofs`, `Replication`** (`protocol.dfy`, `hub.dfy`,
  `replication.dfy`): the relay server as a transition `(state, event) -> (state, outbox)`,
  together with what a push means for every connected device.
- **`SettingsEditor`** (`settings_editor.dfy`): the duration editor's pending-value state
  machine.
- **`Cashier`** (`cashier.dfy`): the base-36 bracelet code and the ticket sale.
- **`Instructor`** (`instructor.dfy`): the case-insensitive quick-complete.
- **`Displays`** (`displays.dfy`): the colour and text buckets, row selection and ordering, and
  the "enter at" time of the three boards.
- **Shared helpers:**
  - `Catalog` (`catalog.dfy`): the five-ride catalog;
  - `Seqs` (`seqs.dfy`): `filter`, `find` and `findIndex`;
  - `Sorting` (`sorting.dfy`): `sort` with a numeric comparator;
  - `Text` (`text.dfy`): `trim` and `toUpperCase`;
  - `Numerals` (`numerals.dfy`): `toString(radix)`;
  - `IntParsing` (`numerals.dfy`): `parseInt`;
  - `Wrappers` (`wrappers.dfy`): `Option` and `Result`.

The clock (`Date.now()`) is a parameter `now`, in milliseconds. Generated ids are a parameter
`freshId`. Stored settings are an explicit argument. Which sockets fail to send is a parameter
`failing`. The outcome of the remote settings call is a parameter too.

## Model

| member | source | states |
|---|---|---|
| Catalog.Find | src/data/attractions.ts:4-50 | a lookup succeeds exactly for the five catalog ids and returns the catalog record with that id |
| Catalog.CatalogWellFormed | src/data/attractions.ts:4-50 | catalog ids are pairwise distinct and every ride duration is positive |
| Catalog.FindCatalogEntry | src/data/attractions.ts:4-50 | looking up the i-th ride's id finds that ride |
| QueueStore.AddToQueue | src/stores/queueStore.ts:17-37 | an unknown attraction leaves the queue unchanged. Otherwise exactly one entry is appended, the existing ones are untouched, and the new entry gets the fresh id, the caller's fields, time `now`, position 1 + (entries of its attraction) and time `now + position * duration * 60000` |
| QueueStore.RemoveFromQueue | src/stores/queueStore.ts:39-70 | an unknown code leaves the queue unchanged; otherwise the result has as many entries as the queue without that code, and no entry carries the code |
| QueueStore.GetAttractionQueue | src/stores/queueStore.ts:91-96 | the result is sorted by position, is a permutation of the attraction's entries, and holds only that attraction's entries from the queue |
| QueueStore.GetQueueSummary | src/stores/queueStore.ts:72-89 | one row per catalog ride, in catalog order, with that ride's id and name. Each row has the count of its entries, wait = count * duration, and next time = now + wait * 60000 |
| QueueStoreProofs.AddAppendsAtNextPosition | src/stores/queueStore.ts:18-36 | after an add to a known attraction, that attraction's entries are the old ones plus the new one, and every other attraction's entries are unchanged; the new position equals the attraction's new length |
| QueueStoreProofs.AddPreservesWellFormed | src/stores/queueStore.ts:17-37 | with a fresh id and an unused code, an add keeps ids and codes distinct, attractions known and every attraction numbered 1..k in array order |
| QueueStoreProofs.AddKeepsKeys | src/stores/queueStore.ts:28-36 | an add with a fresh id and an unused code keeps ids distinct, codes distinct and attractions known |
| QueueStoreProofs.AddKeepsContiguous | src/stores/queueStore.ts:19-24 | an add keeps each attraction's positions 1..k in array order |
| QueueStoreProofs.RenumberByAttraction | src/stores/queueStore.ts:58-67 | the renumbering map rewrites exactly the affected attraction's entries, each through the same per-entry step, and leaves every other attraction's entries as they were |
| QueueStoreProofs.RemoveRenumbersAffected | src/stores/queueStore.ts:57-67 | with distinct ids, after a remove the affected attraction's entries are the survivors in array order, the k-th with position k+1 and time `now + (k+1) * duration * 60000` |
| QueueStoreProofs.RemoveWithoutCatalogEntry | src/stores/queueStore.ts:50-55 | when the target's attraction is not in the catalog, remove only filters the code out |
| QueueStoreProofs.RemoveKeepsOtherAttractions | src/stores/queueStore.ts:58-67 | a remove changes no entry of any other attraction beyond dropping the code |
| QueueStoreProofs.OthersLackCode | src/stores/queueStore.ts:41-46 | with distinct codes, filtering out the code leaves every other attraction's entries whole |
| QueueStoreProofs.RemoveKeepsKeys | src/stores/queueStore.ts:39-70 | a remove keeps ids distinct, codes distinct and attractions known |
| QueueStoreProofs.RemovePreservesWellFormed | src/stores/queueStore.ts:39-70 | a remove keeps the store well formed: distinct ids and codes, known attractions, and positions 1..k per attraction |
| QueueStoreProofs.AttractionQueueIsArrayOrder | src/stores/queueStore.ts:91-96 | in a well-formed store the sorted attraction view is the array order, and the k-th entry has position k+1 |
| QueueStoreProofs.SummaryAfterAdd | src/stores/queueStore.ts:24-26 | an add lengthens its attraction's summary row by one and its wait by one duration, and the new entry's time is that row's next available time |
| QueueStoreProofs.SummaryAfterAddOthers | src/stores/queueStore.ts:17-37 | an add leaves every other attraction's summary row unchanged |
| QueueStoreProofs.SummaryAfterRemove | src/stores/queueStore.ts:39-89 | in a well-formed store a remove shortens the target's row by exactly one and leaves every other row unchanged |
| QueueStoreProofs.AffectedShrinks | src/stores/queueStore.ts:41-67 | in a well-formed store a remove takes exactly one entry from the target's attraction |
| QueueStoreProofs.GroupLosesTarget | src/stores/queueStore.ts:46 | with distinct codes, filtering out a present code removes exactly one entry from its attraction |
| LocalQueue.ActiveQueue | src/hooks/useLocalQueue.ts:199 | the exposed queue holds exactly the active stored entries |
| LocalQueue.AddToQueue | src/hooks/useLocalQueue.ts:124-158 | exactly one entry is appended and the others are untouched. It gets the upper-cased code as both code and name, position 1 + (active entries of its attraction), time `now + (position-1) * duration * 60000` with the stored duration or 5, status active, and no completion fields |
| LocalQueue.Actor | src/hooks/useLocalQueue.ts:176 | the recorded operator is present exactly when a non-empty name was given |
| LocalQueue.CompleteCode | src/hooks/useLocalQueue.ts:170-179 | every active entry with the code becomes completed with `completedAt = now`, and every other entry is unchanged. No id, attraction, code, name, position, estimated time or creation time changes |
| LocalQueue.RemoveFromQueue | src/hooks/useLocalQueue.ts:160-190 | fails with "ticket not found" exactly when no active entry carries the code; otherwise completes all of them |
| LocalQueue.GetAttractionQueue | src/hooks/useLocalQueue.ts:192-196 | sorted by position, a permutation of the attraction's active entries, holding only entries of the queue that are active and of that attraction |
| LocalQueue.CalculateQueueSummary | src/hooks/useLocalQueue.ts:97-122 | one row per catalog ride, in catalog order. `queueLength` counts the active entries. A non-empty row waits (count - 1) times the stored duration when that is truthy, else the catalog duration; an empty row waits 0. Next time = now + wait * 60000 |
| LocalQueue.ApplyQueueSync | src/hooks/useLocalQueue.ts:40-46 | a `queue-sync` replaces the queue with its payload or []; every other message, `init` included, leaves it alone |
| LocalQueueProofs.AddAgreesWithSummary | src/hooks/useLocalQueue.ts:97-158 | with a stored duration, an add lengthens its summary row by one, and the row's next time is the new entry's estimated time |
| LocalQueueProofs.AddFallbackDisagreesWithSummary | src/hooks/useLocalQueue.ts:107 | with no stored settings, a second visitor for ride "2" is promised 5 minutes while the summary of the same queue says 15 (catalog fallback vs. 5) |
| LocalQueueProofs.CompleteHidesCode | src/hooks/useLocalQueue.ts:170-179 | completing a code removes exactly the entries with that code from every attraction's active list, keeping the rest in order |
| LocalQueueProofs.RemoveKeepsOtherRows | src/hooks/useLocalQueue.ts:170-182 | a remove leaves unchanged the summary row of any attraction none of whose active entries carries the code |
| LocalQueueProofs.RemoveShortensRow | src/hooks/useLocalQueue.ts:160-182 | when exactly one active entry carries the code, the remove succeeds and shortens that attraction's row by one |
| LocalQueueProofs.PositionsCanCollide | src/hooks/useLocalQueue.ts:126-179 | with three queued, completing the second and adding a fourth leaves two active entries at position 3 |
| LocalQueueProofs.AttractionQueueInArrayOrder | src/hooks/useLocalQueue.ts:192-196 | when the active entries already appear by position, the sorted view is the array order |
| Settings.DefaultSettings | src/stores/attractionSettingsStore.ts:15-22 | one record per catalog ride, in catalog order, copying id, duration, capacity and active flag |
| Settings.UpdateDuration | src/stores/attractionSettingsStore.ts:60-67 | same length; records of that attraction take the new duration; every other field and record is unchanged |
| Settings.GetDuration | src/stores/attractionSettingsStore.ts:73-76 | a truthy stored duration first, then the catalog duration, then 5; never 0 |
| Settings.UpdateKeepsLookup | src/hooks/useLocalSettings.ts:85-101 | an update changes which record a lookup finds only by the new duration |
| Settings.GetAfterUpdate | src/hooks/useLocalSettings.ts:85-101 | after a non-zero update on an attraction with a record, `getDuration` returns that duration |
| Settings.GetAfterUpdateOther | src/hooks/useLocalSettings.ts:85-101 | an update never changes the duration reported for another attraction |
| Settings.UpdateMissingIsNoOp | src/hooks/useLocalSettings.ts:85-90 | an update on an attraction with no record changes nothing |
| Settings.UpdateIdempotent | src/stores/attractionSettingsStore.ts:60-67 | the same update applied twice equals it applied once |
| Settings.DefaultDurations | src/stores/attractionSettingsStore.ts:15-22 | on the defaults every catalog ride reports its catalog duration |
| SettingsStore.ResetToDefaults | src/stores/attractionSettingsStore.ts:78-82 | whatever the settings were, they become exactly the default settings, so every catalog ride reports its catalog duration again |
| SettingsStore.LoadFromStorage | src/stores/attractionSettingsStore.ts:27-38 | a parseable stored snapshot replaces the settings; a missing or broken one leaves them |
| LocalSettings.LoadSettings | src/hooks/useLocalSettings.ts:44-65 | a stored snapshot is used as is, nothing stored gives the catalog defaults, and a broken item leaves the settings |
| LocalSettings.ApplySettingsSync | src/hooks/useLocalSettings.ts:24-29 | a `settings-sync` replaces the settings with its payload or []; every other message leaves them |
| Protocol.PayloadOrEmpty | server.js:59 | a present payload is taken as is, and a missing one becomes [] |
| Hub.SendCurrentData | server.js:33-44 | one `init` with both snapshots to that client, or nothing when its send throws |
| Hub.Broadcast | server.js:16-30 | the outbox addresses, in order, are the open clients whose send works, in connection order, the sender included. Every message equals the broadcast one |
| Hub.BroadcastOnce | server.js:20-29 | with distinct connection ids, no client is sent the same broadcast twice |
| Hub.HandleMessage | server.js:53-88 | an update replaces only its own snapshot (falsy becomes []) and broadcasts the matching sync; `request-sync` resends `init` to the requester; malformed frames and other types change nothing and send nothing |
| Hub.Step | server.js:46-97 | a connection appends an open client and sends it `init`. A disconnect drops exactly that client, keeps every other one and sends nothing. Neither touches the snapshots; a frame is handled as above |
| HubProofs.QueueUpdateIdempotent | server.js:58-66 | the same `queue-update` twice leaves the same snapshot and sends the same messages |
| HubProofs.QueueLastWriteWins | server.js:58-60 | after any run of events the queue snapshot is the last pushed one, or the starting one if none |
| HubProofs.SettingsLastWriteWins | server.js:69-71 | after any run of events the settings snapshot is the last pushed one, or the starting one if none |
| Replication.QueuePushReplicates | src/hooks/useLocalQueue.ts:40-46 | after a device pushes its queue, every open, working device (the pusher too) is sent a `queue-sync` that leaves it holding exactly that queue, and the server holds it too |
| Replication.SettingsPushReplicates | src/hooks/useLocalSettings.ts:24-29 | the same for a settings push |
| Replication.ConnectLeavesDeviceAsIs | server.js:46-51 | a connecting device is sent `init`, which neither device handler acts on |
| SettingsEditor.PendingValue | src/components/AttractionSettings.tsx:18 | the parsed value if it parses to non-zero, else 1; never 0 |
| SettingsEditor.HandleDurationChange | src/components/AttractionSettings.tsx:17-23 | the attraction's pending value becomes the parsed value; other pending values and the saving flags are unchanged |
| SettingsEditor.Revert | src/components/AttractionSettings.tsx:128-131 | only that attraction's pending value is dropped |
| SettingsEditor.BeginSave | src/components/AttractionSettings.tsx:25-32 | skipped exactly when no pending value of at least 1 exists. Otherwise one call with that value, with the flag raised and the pending values as they were |
| SettingsEditor.FinishSave | src/components/AttractionSettings.tsx:32-52 | applied to the editor as it is when the call ends: success drops that ride's pending value and nothing else, failure keeps every pending value, and the flag comes down either way |
| SettingsEditor.HandleSave | src/components/AttractionSettings.tsx:25-53 | with nothing typed during the call: skipped exactly when no pending value of at least 1 exists. Otherwise one call with that value, the flag raised during the call and lowered after either outcome, and the pending value dropped only on success |
| SettingsEditor.TypedDuringSave | src/components/AttractionSettings.tsx:32-38 | a value typed for the saved ride while the call is pending is lost on success, although the call sent the older value; on failure the newer value stays pending |
| SettingsEditor.OtherTypedDuringSave | src/components/AttractionSettings.tsx:35-38 | a value typed for another ride while the call is pending survives the save |
| SettingsEditor.GetCurrentDuration | src/components/AttractionSettings.tsx:55-61 | the pending value first, else the settings' non-zero duration chain |
| SettingsEditor.EditShowsPending | src/components/AttractionSettings.tsx:17-65 | a typed value is shown at once and marks the attraction as changed |
| SettingsEditor.TypedValueSaves | src/components/AttractionSettings.tsx:17-32 | a typed value parsing to at least 1 is saved with exactly that value |
| SettingsEditor.NegativeNeverSaves | src/components/AttractionSettings.tsx:17-27 | a negative typed value is kept pending but never saved |
| SettingsEditor.SaveKeepsDisplayedValue | src/components/AttractionSettings.tsx:25-61 | once a save resolves and the settings take the value, the shown duration is the same as before and nothing is unsaved |
| SettingsEditor.OthersUntouched | src/components/AttractionSettings.tsx:32-38 | saving or reverting one attraction leaves every other pending value alone |
| Text.Trim | src/components/CashierInterface.tsx:24 | the result is a stretch of the input with only white space before and after it, has no white space at either end, and is empty exactly when the input is blank |
| Text.Upper | src/components/InstructorInterface.tsx:77 | same length; a-z become A-Z and every other character is kept |
| Text.TrimUpperCommute | src/components/InstructorInterface.tsx:77 | trimming and upper-casing commute |
| Numerals.ToRadix | src/components/CashierInterface.tsx:20 | a non-empty string of valid digits with no leading zero |
| Numerals.RoundTrip | src/components/CashierInterface.tsx:20 | reading back the printed digits gives the number |
| Numerals.LastDigits | src/components/CashierInterface.tsx:20 | the last k printed digits read back as n mod base^k |
| IntParsing.ParseDecimal | src/components/AttractionSettings.tsx:18 | `parseInt` of an integer's decimal text gives the integer back |
| IntParsing.ParseDecimalThen | src/components/PublicQueueDisplay.tsx:103 | `parseInt` reads n back from its decimal text followed by a space and anything else |
| Cashier.GenerateBraceletCode | src/components/CashierInterface.tsx:19-21 | "BR" then 1 to 6 characters from 0-9/A-Z, exactly 6 once the clock is at least 36^5 |
| Cashier.CodeEncodesClock | src/components/CashierInterface.tsx:20 | the code's suffix read in base 36 is the clock mod 36^6 |
| Cashier.CodesDifferWithinCycle | src/components/CashierInterface.tsx:20 | clocks that differ mod 36^6 give different codes |
| Cashier.SellTicket | src/components/CashierInterface.tsx:23-49 | refused exactly when the trimmed name is empty or no attraction is chosen. Otherwise the trimmed name is queued with the generated code, and the form is cleared |
| Cashier.SaleQueuesVisitor | src/components/CashierInterface.tsx:33-39 | a sale for a catalog ride appends exactly one entry with the code, the trimmed (non-blank) name and the chosen ride |
| Instructor.EffectiveAttraction | src/components/InstructorInterface.tsx:29-30 | an admin works on the selected ride, anyone else on their own ride, or none |
| Instructor.Key | src/components/InstructorInterface.tsx:77 | the key is empty exactly when the typed text is blank |
| Instructor.QuickComplete | src/components/InstructorInterface.tsx:76-111 | a blank code and then a missing ride are refused. "Not found" happens exactly when no shown entry's upper-cased code equals the key. Otherwise the first shown entry that matches is removed by its stored code and the field is cleared; on every failure nothing changes |
| Instructor.FindShown | src/components/InstructorInterface.tsx:97 | finds nothing exactly when no shown entry's upper-cased code equals the key. A found entry is in the queue, belongs to the ride, and no earlier shown entry matches |
| Instructor.CaseInsensitive | src/components/InstructorInterface.tsx:77-97 | typing the code upper-cased gives the same outcome and queue |
| Instructor.SameKeySameResult | src/components/InstructorInterface.tsx:77-110 | only the trimmed, upper-cased text decides the outcome and the queue |
| Instructor.CompletedLeavesQueue | src/stores/queueStore.ts:46 | after a quick complete no entry carries the completed code |
| Displays.StatusAgrees | src/components/PublicQueueDisplay.tsx:10-29 | two waits get the same colour iff they get the same status text, iff the same recommendation |
| Displays.StatusMonotone | src/components/CashierDisplay.tsx:10-22 | for non-negative waits a longer wait never gets a calmer colour |
| Displays.WaitLabelReadsBack | src/components/PublicQueueDisplay.tsx:103 | the label "<n> мин" reads back as n, and "Сейчас" holds no number |
| Displays.CardTimeFollowsRender | src/components/PublicQueueDisplay.tsx:61 | a card drawn d ms after its row was built shows the row's next time plus d, for the rows of both queue engines |
| Displays.PublicRows | src/components/PublicQueueDisplay.tsx:51-56 | sorted by ascending wait, a permutation of the listed rows, and holding exactly the rows of a known, active ride |
| Displays.CashierRows | src/components/CashierDisplay.tsx:44-46 | holds exactly the rows of a known, active ride |
| Displays.CashierKeepsOrder | src/components/CashierDisplay.tsx:44-46 | rows arriving ordered by any key are shown in that order |
| Displays.SortedBoardsAgree | src/components/PublicQueueDisplay.tsx:51-56 | rows already ordered by wait appear identically on the public and the cashier boards |
| Displays.CatalogRowsAllShown | src/components/CashierDisplay.tsx:44-46 | over the store's summary the cashier board shows every row in catalog order |
| Displays.PublicCard | src/components/PublicQueueDisplay.tsx:58-138 | an "enter at" time, now + wait * 60000, appears exactly when the wait is positive, and "go straight in" otherwise |
| Displays.PublicBoard | src/components/PublicQueueDisplay.tsx:51-61 | the k-th card is the public card of the k-th listed row, so waits never decrease along the board |
| Displays.CashierBlocksExclusive | src/components/CashierDisplay.tsx:101-119 | the two blocks never show together, and exactly one shows iff the wait is non-negative |
| Displays.CashierCard | src/components/CashierDisplay.tsx:48-119 | "enter at" now + wait * 60000 iff the wait is positive, "go now" iff it is 0, and neither iff it is negative |
| Displays.CashierBoard | src/components/CashierDisplay.tsx:44-46 | the k-th card is the cashier card of the k-th listed row, in arrival order |
| Displays.VisitorColorMatchesText | src/components/VisitorDashboard.tsx:11-23 | the text of `VisitorText` fixes the colour: the three short-wait texts iff green, "Умеренно" iff yellow, "Долго" iff red |
| Displays.VisitorNoHarsherThanStatus | src/components/VisitorDashboard.tsx:11-15 | the dashboard colour is never harsher than the public board's, and is red exactly when that one is |
| Displays.VisitorCard | src/components/VisitorDashboard.tsx:38-90 | the time line shows the row's next time exactly when the wait is positive |
| Displays.VisitorBoard | src/components/VisitorDashboard.tsx:38-40 | one card for each row of a catalog ride, and only for those |
| Displays.VisitorSeesEveryRide | src/components/VisitorDashboard.tsx:9-90 | over the store's summary, all five rides are shown in catalog order; a ride's time line appears exactly when someone is queued, showing now + count * duration * 60000 |

## Left out

- Side effects are not modelled:
  - WebSocket open, send and close, except that a failing send is the `failing` parameter;
  - localStorage reads and writes, except a read is the `Stored` argument;
  - `BroadcastChannel`;
  - toasts, console logging, JSX, and the 500 ms polling interval of the instructor screen.
- `Math.random()` ids and `Date.now()` are not modelled; they are the parameters `freshId` and
  `now`. One `now` is used per call. The source reads the clock separately for the timestamp and
  the estimate, so its values can differ by a millisecond.
- `toLocaleTimeString` formatting is not modelled; a board's time is the millisecond value it
  formats.
- Text.Upper: only a-z are upper-cased. JavaScript's `toUpperCase` also maps Cyrillic and
  other scripts. The bracelet codes are ASCII.
- JavaScript numbers are doubles; the model's integers are unbounded. Neither precision loss nor
  `parseInt` of values beyond 2^53 is modelled.
- Sorting.SortBy: it is an insertion sort that keeps equal keys in arrival order. Its
  contracts state sortedness and permutation only, so they do not depend on how the JavaScript
  engine breaks ties.
- Protocol.PayloadOrEmpty: a truthy non-array `data` field (a number, an object) is not
  representable. Payloads are `Option<seq<T>>`.
- `loadQueue` / `refreshQueue` of the local queue hook: a localStorage read and parse, left to
  the caller. The hook's `saveQueue` / `saveSettings` pushes are modelled as the frames of
  `Replication`.
- The zustand settings store's `saveToStorage` and its `settings-sync` window listener: storage
  and channel I/O.
- Login and the staff store are not modelled. `hasAdminPermissions` and the user's attraction are
  inputs to `Instructor.EffectiveAttraction`.
- Instructor.QuickComplete searches the current attraction view. The screen searches a copy
  that is refreshed every 500 ms, so a just-changed queue can be up to one tick stale there.
- Displays.PublicRows and `Displays.CashierRows` take the summary rows as an input list. Both
  boards read `state.queueSummary`, a field the queue store never defines. The visitor
  dashboard's `getQueueSummary()` is modelled through `Displays.VisitorDashboard`.
- Displays.StatusColor: a negative wait gets yellow. The source's buckets do the same; no
  engine produces one.
- These are not part of this model, being wrappers over services or view code:
  - the Supabase hooks and their screens (`TicketManager`, `QueueBoard`);
  - WebRTC and broadcast sync;
  - `local-server.js`, the launchers, auth, routing;
  - `OperatorInterface`, which only delegates to remove.
- Behaviour of the code a reader may not expect; the model follows the code:
  - devices ignore the server's `init` message;
  - the server rebroadcasts to every open client, the sender included;
  - the local add falls back to 5 minutes while its summary falls back to the catalog duration
    (`LocalQueueProofs.AddFallbackDisagreesWithSummary`);
  - the local remove never renumbers, so positions can repeat
    (`LocalQueueProofs.PositionsCanCollide`);
  - the local remove does not upper-case the code it is given, although add stores codes
    upper-cased.
