# Selection Tracker: a verified model of the selection-history engine

Selection Tracker is a Unity editor tool. It records what the user selects
and offers three lists of those selections:

- a recency **history** with back/forward navigation;
- a **most visited** ranking;
- a list of pinned **favourites**.

This project models the engine behind those lists in Dafny.

## What is modelled

- **Entries** (`entry.dfy`, module `Entries`).
  - An entry is a durable reference to an editor object. It holds a GlobalObjectId, a cached live reference restored from that identifier on demand, cached metadata, a kind tag, a favourite flag and a play-mode flag.
  - `Entry` is a class.
  - Restoring the reference, `Equals` and `GameObjectInstanceState` all change the cache, so they are methods. Each is proved to return what a pure function of the entry's earlier state computes:
    - `RestoredRef` for restoring;
    - `Same` for `Equals`;
    - `InstanceState` for `GameObjectInstanceState`.
- **The editor** (`unity_host.dfy`, module `UnityHost`).
  - The editor is a `Host` value that the operations take as a parameter. It answers four questions:
    - is play mode on;
    - which objects are still alive (Unity's "fake null");
    - which scenes are loaded;
    - what `GlobalObjectIdentifierToObjectSlow` returns for an identifier.
- **The three services** (modules `History`, `MostVisited`, `Favorites`). Each keeps a `List<Entry>`, modelled as a `seq<Entry>` field of a class. The methods reassign that field. Each notification (`OnUpdated`) increments a counter.
  - `HistoryService`:
    - move-to-back deduplication;
    - a 100-entry cap with oldest-first eviction;
    - a cursor for back/forward navigation;
    - a newest-first view.
  - `MostVisitedService`:
    - a sliding window of the last 200 raw selections;
    - a view that groups the window by `Equals`, orders the groups by size in a stable sort, and lists one key per group.
    - The grouping is computed over a matrix of the `Equals` answers between window positions (`SameMatrix`).
  - `FavoritesService`:
    - a pinned list whose behaviour depends on whether the favourites window is open;
    - a snapshot (`_entries0`) that staged edits are applied to or discarded back to.
- **The coordinator** (`entry_service_persistence.dfy`, module `Coordinator`).
  - It is the registry of services, keyed by type name.
  - It registers the three services at startup.
  - It dispatches a selection to History and MostVisited, and favourites to Favorites.
  - It counts explicit `Save(true)` calls.
- **Preferences** (`preference_persistence.dfy`, module `Preferences`).
  - The toggle table is an association list searched from the front: reading a missing key gives `false`, writing a missing key throws.
  - The ten defaults are modelled.
  - So is the global state filter.
- **The list window's logic helpers** (`main_window.dfy`, module `Window`).
  - keyword search (`IsMatch`);
  - the instance-state filter (`PassFilter`);
  - flag toggling;
  - refilling the fixed pool of row elements.
  - A `[Flags]` value of `GameObjectState` is the set of its set bits (`StateFlags = set<Bit>`).
- **Shared pieces.**
  - `sequences.dfy` holds the `List<T>` operations as sequence functions, and the subsequence relation that states "order is kept".
  - `wrappers.dfy` holds `Option`.

### How exceptions are modelled

An exception the source can throw is a `thrown` result or a `Jump` outcome. These cases are:

- History's `RecordEntry` with a negative cursor;
- `PreviousSelection`/`NextSelection` with a stale cursor;
- `SetToggleValue` with an unknown key;
- `DiscardChanges` before any snapshot exists.

In each of these cases the lists and the notification and save counters do not change. History's cursor is the exception. `PreviousSelection` and `NextSelection` move the cursor before they index the list. With a stale cursor the moved value stays after the indexer throws.

## Model

| member | source | states |
|---|---|---|
| UnityHost.Resolve | Assets/Src/Editor/Entry/Entry.cs:182 | the identifier lookup yields an object exactly when the editor knows the identifier |
| Entries.RestoreCache | Assets/Src/Editor/Entry/Entry.cs:162-187 | a live cached reference keeps the whole cache; a failed restore changes only the stored reference; a successful one stores the object the identifier resolves to and re-reads the identifier from it |
| Entries.RestoreIdempotent | Assets/Src/Editor/Entry/Entry.cs:162-171 | restoring a second time changes nothing: the first restore stored the reference the second one finds |
| Entries.Entry.NotReferencing | Assets/Src/Editor/Entry/Entry.cs:108 | an entry that is not referencing holds no live reference but has a non-null identifier |
| Entries.Entry.IsGameObject | Assets/Src/Editor/Entry/Entry.cs:74 | a GameObject entry is never an asset |
| Entries.Entry.IsAsset | Assets/Src/Editor/Entry/Entry.cs:75 | an asset entry is never a GameObject |
| Entries.Entry.IsDeleted | Assets/Src/Editor/Entry/Entry.cs:76 | a deleted entry is an asset, never a GameObject, and still has its identifier |
| Entries.Entry.RestoredCache | Assets/Src/Editor/Entry/Entry.cs:162-171 | the cache after a restore carries the reference `RestoredRef` predicts and the identifier `RestoredId` predicts |
| Entries.Entry.constructor | Assets/Src/Editor/Entry/Entry.cs:112-117 | an entry built from a null or destroyed object has the null identifier, no cached reference and default metadata, is neither "not referencing" nor deleted, and is `NotGameObject`; otherwise the whole cache is `CacheRefInfo` applied to the blank entry: identity, reference, name and kind from the object, and for a GameObject with identifier type 2 also its scene, scene name, scene path and play-mode flag, which otherwise keep their blank defaults |
| Entries.Entry.SetFavorite | Assets/Src/Editor/Entry/Entry.cs:78-84 | stores the flag and appends the value to the emitted `onFavoriteChanged` events; the cached reference, identifier and metadata are untouched |
| Entries.Entry.CacheRefInfo | Assets/Src/Editor/Entry/Entry.cs:190-221 | a null object changes nothing; identifier type 2 plus a GameObject gives kind GameObject, records the play-mode flag and caches the scene; identifier type 1 or 3 gives kind Asset; any other type keeps the kind |
| Entries.Entry.TryRestoreFromId | Assets/Src/Editor/Entry/Entry.cs:173-187 | looks the identifier up only when not referencing and not in play mode; success is exactly "the lookup gave a live object" |
| Entries.Entry.TryRestoreAndCacheObject | Assets/Src/Editor/Entry/Entry.cs:162-171 | the whole cache afterwards is `RestoredCache` of the state before: a cached live reference leaves the entry unchanged; otherwise the lookup result is stored even when it fails, and metadata is refreshed only on success; in play mode the reference stays null; the favourite flag and events are untouched |
| Entries.Entry.GetRef | Assets/Src/Editor/Entry/Entry.cs:60-65 | the `Ref` getter restores, leaving `RestoredCache` behind, and returns the reference `RestoredRef` predicts |
| Entries.Entry.Equals | Assets/Src/Editor/Entry/Entry.cs:120-136 | false for null; otherwise the answer is `Same` on the state before the call; for null or the same instance nothing changes; otherwise this entry is restored, and the other entry is restored exactly when this one resolves and is untouched when it does not; no favourite flag changes |
| Entries.Entry.GameObjectInstanceState | Assets/Src/Editor/Entry/Entry.cs:86-106 | returns `InstanceState` of the state before the call; a non-GameObject entry is returned `NotGameObject` untouched; a GameObject entry is left with `RestoredCache` |
| Entries.InstanceStateCases | Assets/Src/Editor/Entry/Entry.cs:86-106 | the state is one of the four single states; non-GameObjects are `NotGameObject`; `Unloaded`/`Destroyed` exactly for an unrestorable identified GameObject whose scene is not loaded, `Destroyed` exactly when it was captured in play mode; `Loaded` exactly for a live restored GameObject in a loaded scene |
| Entries.DeletedIsNotGameObject | Assets/Src/Editor/Entry/Entry.cs:76 | a deleted asset (kind Asset, not referencing) is classified `NotGameObject` |
| Entries.RestoredIdIsId | Assets/Src/Editor/Entry/Entry.cs:166-167 | when identifiers resolve to objects carrying them, restoring never changes an entry's identifier |
| Entries.Same | Assets/Src/Editor/Entry/Entry.cs:120-136 | every entry equals itself; two entries holding live references are equal exactly when they are one entry or reference the same object |
| Entries.SameSymmetric | Assets/Src/Editor/Entry/Entry.cs:129-135 | with a consistent editor, `a.Equals(b)` and `b.Equals(a)` agree |
| Entries.IndexOfSame | Assets/Src/Editor/Entry/EntryService.cs:56 | `FindIndex(x => x.Equals(e))`: -1 or a position holding an equal entry, with no equal entry before it (none at all for -1) |
| Sequences.RemoveAt | Assets/Src/Editor/Entry/EntryService.cs:60 | removing index `i` shifts exactly the later elements down by one |
| Sequences.KeepLast | Assets/Src/Editor/Entry/EntryService.cs:66-68 | front eviction leaves the newest `min(n, |s|)` elements, as a suffix |
| Sequences.Reverse | Assets/Src/Editor/Entry/EntryService.cs:31 | position `k` of the view is position `|s|-1-k` of the list |
| Sequences.ReverseReverse | Assets/Src/Editor/Entry/EntryService.cs:31 | reversing twice gives the list back |
| Sequences.Filter | Assets/Src/Editor/Entry/EntryService.cs:87 | `RemoveAll(pred)` keeps only elements not matching, each of them an element of the list, and every element not matching is kept |
| Sequences.FilterCounts | Assets/Src/Editor/Entry/EntryService.cs:87 | `RemoveAll(pred)` never adds a copy, and keeps every copy of each element that does not match |
| Sequences.FilterIsSubsequence | Assets/Src/Editor/Entry/EntryService.cs:87 | `RemoveAll(pred)` keeps the relative order of the remaining elements |
| Sequences.SuffixIsSubsequence | Assets/Src/Editor/Entry/EntryService.cs:66-68 | front eviction keeps the order of the rest |
| Sequences.RemoveAtIsSubsequence | Assets/Src/Editor/Entry/EntryService.cs:58-61 | removing one element keeps the order of the rest |
| Sequences.SubsequenceTransitive | Assets/Src/Editor/Entry/EntryService.cs:58-68 | order kept by successive removals is kept by the whole sequence of removals |
| Sequences.SubsequenceMembers | Assets/Src/Editor/Entry/EntryService.cs:58-68 | removals never introduce elements |
| History.HistoryService.constructor | Assets/Src/Editor/Entry/EntryService.cs:30-40 | empty log, cursor 0 |
| History.HistoryService.GetEntries | Assets/Src/Editor/Entry/EntryService.cs:31 | the view has the log's length and position `k` is log position `Count-1-k`: newest first |
| History.Recorded | Assets/Src/Editor/Entry/EntryService.cs:56-68 | after recording, the entry is last and the log holds between 1 and 100 entries |
| History.HistoryService.SetCurrentSelectionIndex | Assets/Src/Editor/Entry/EntryService.cs:42-45 | stores `Count - value - 1`, turning a newest-first view index into a log position |
| History.HistoryService.RecordEntry | Assets/Src/Editor/Entry/EntryService.cs:47-72 | null, or an entry equal to the one under the cursor, changes nothing and does not notify; a negative cursor throws with nothing changed; otherwise the log becomes `Recorded(log, e)` and one notification is raised; the cursor never moves |
| History.HistoryService.EvictOldest | Assets/Src/Editor/Entry/EntryService.cs:66-68 | the eviction loop leaves exactly the newest 100 entries |
| History.HistoryService.RemoveEntry | Assets/Src/Editor/Entry/EntryService.cs:74-79 | removes the first entry equal (as `Equals` answers before the call) to the argument, if any, and keeps every other entry in place; always notifies |
| History.HistoryService.RemoveAll | Assets/Src/Editor/Entry/EntryService.cs:81-84 | empties the log and notifies |
| History.HistoryService.RemoveAllWhere | Assets/Src/Editor/Entry/EntryService.cs:86-89 | keeps exactly the entries the predicate rejects, in order; notifies |
| History.HistoryService.PreviousSelection | Assets/Src/Editor/Entry/EntryService.cs:91-101 | empty log: null and the cursor unchanged; otherwise the cursor steps back clamped at 0 and the entry there is returned, or the indexer throws for a stale cursor |
| History.HistoryService.NextSelection | Assets/Src/Editor/Entry/EntryService.cs:103-113 | empty log: null and the cursor unchanged; otherwise the cursor steps forward clamped at `Count-1` and the entry there is returned, or the indexer throws for a negative cursor |
| History.RecordedLeavesNoOtherEqual | Assets/Src/Editor/Entry/EntryService.cs:56-64 | when at most one logged entry equalled `e`, no entry other than the new last one equals it |
| History.RecordedKeepsOrder | Assets/Src/Editor/Entry/EntryService.cs:56-68 | every surviving older entry was logged before, in the same relative order |
| History.AppendThenEvictKeepsOrder | Assets/Src/Editor/Entry/EntryService.cs:64-68 | appending the entry and then evicting from the front keeps the order of the older survivors |
| History.RecordedEvictsOldest | Assets/Src/Editor/Entry/EntryService.cs:66-68 | recording a new entry into a full log drops exactly the oldest one |
| History.RecordedMovesToBack | Assets/Src/Editor/Entry/EntryService.cs:56-64 | re-recording a logged entry within the limit only moves it to the end |
| History.ViewIndexIsLogPosition | Assets/Src/Editor/Entry/EntryService.cs:31-44 | the view index and the log position the setter stores name the same entry |
| History.StepsStayInLog | Assets/Src/Editor/Entry/EntryService.cs:91-113 | from a cursor inside the log, both steps stay inside, move by one unless clamped, and return the entry under the new cursor |
| History.StaleCursorThrows | Assets/Src/Editor/Entry/EntryService.cs:96-100 | a cursor left beyond a log that has since shrunk makes `PreviousSelection` throw |
| MostVisited.SameMatrix | Assets/Src/Editor/Entry/EntryService.cs:125 | the matrix holds exactly the `Equals` answers between window positions |
| MostVisited.FindGroup | Assets/Src/Editor/Entry/EntryService.cs:125 | the group an element joins has a key equal to it, and no later-opened group's key equals it; -1 when none does |
| MostVisited.JoinAddsOne | Assets/Src/Editor/Entry/EntryService.cs:125 | each element joins exactly one group: the group sizes grow by one in total |
| MostVisited.JoinTotal | Assets/Src/Editor/Entry/EntryService.cs:125 | grouping one more window position adds one to the group sizes |
| MostVisited.JoinBounded | Assets/Src/Editor/Entry/EntryService.cs:125 | joining position `x` keeps every key among the positions seen so far and every group non-empty |
| MostVisited.JoinInWindowOrder | Assets/Src/Editor/Entry/EntryService.cs:125 | grouping one more position keeps the groups in the order their keys occur |
| MostVisited.JoinKeepsKeysApart | Assets/Src/Editor/Entry/EntryService.cs:125 | joining keeps every key different from the keys of groups opened after it |
| MostVisited.JoinCovers | Assets/Src/Editor/Entry/EntryService.cs:125 | after grouping one more position, every position seen so far equals some key |
| MostVisited.JoinCounts | Assets/Src/Editor/Entry/EntryService.cs:125-126 | when `Equals` is an equivalence, joining keeps each group's size equal to the number of positions equal to its key |
| MostVisited.GroupsBounded | Assets/Src/Editor/Entry/EntryService.cs:125 | every group's key lies in the window and every group has at least one member |
| MostVisited.GroupsInWindowOrder | Assets/Src/Editor/Entry/EntryService.cs:125 | groups are opened in the order their keys occur in the window |
| MostVisited.GroupsCountWindow | Assets/Src/Editor/Entry/EntryService.cs:125 | the group sizes add up to the window length |
| MostVisited.KeysDistinct | Assets/Src/Editor/Entry/EntryService.cs:125 | no group's key equals the key of a group opened later |
| MostVisited.KeysCoverWindow | Assets/Src/Editor/Entry/EntryService.cs:125 | every window element equals some group's key |
| MostVisited.GroupSizesAreCounts | Assets/Src/Editor/Entry/EntryService.cs:125-126 | when `Equals` is an equivalence, each group's size is the number of window elements equal to its key |
| MostVisited.NewKeyCountsOne | Assets/Src/Editor/Entry/EntryService.cs:125 | an element that opens a new group equals none of the earlier elements |
| MostVisited.CountEqZero | Assets/Src/Editor/Entry/EntryService.cs:125-126 | a key that equals no element counts zero |
| MostVisited.TotalUpdate | Assets/Src/Editor/Entry/EntryService.cs:125 | growing one group grows the total by the same amount |
| MostVisited.EquivalenceOnPrefix | Assets/Src/Editor/Entry/EntryService.cs:125 | an equivalence on the window is one on every prefix |
| MostVisited.Insert | Assets/Src/Editor/Entry/EntryService.cs:126 | insertion adds exactly the one group (as a multiset) |
| MostVisited.SortGroups | Assets/Src/Editor/Entry/EntryService.cs:126 | the sort is a permutation of the groups |
| MostVisited.Before | Assets/Src/Editor/Entry/EntryService.cs:126 | a group ranked before another has at least as many members and is a different group |
| MostVisited.InsertSorted | Assets/Src/Editor/Entry/EntryService.cs:126 | insertion keeps the list ordered by size, ties by first occurrence |
| MostVisited.SortGroupsSorted | Assets/Src/Editor/Entry/EntryService.cs:126 | the stable descending sort orders groups by size, ties in first-seen order |
| MostVisited.Ranked | Assets/Src/Editor/Entry/EntryService.cs:124-126 | the ranking is a permutation of the groups and every key lies in the window |
| MostVisited.View | Assets/Src/Editor/Entry/EntryService.cs:124-128 | the view lists the key element of each ranked group, in ranking order |
| MostVisited.RankedIsSorted | Assets/Src/Editor/Entry/EntryService.cs:126 | the ranking is ordered by non-increasing size, ties in the order the keys were first seen |
| MostVisited.SortKeepsKeysApart | Assets/Src/Editor/Entry/EntryService.cs:125-126 | sorting keeps distinct keys distinct |
| MostVisited.RankedKeysDiffer | Assets/Src/Editor/Entry/EntryService.cs:125-127 | one key per group: no listed key equals a listed key first seen later |
| MostVisited.ViewKeysDiffer | Assets/Src/Editor/Entry/EntryService.cs:124-128 | the same, as `Equals` between view elements |
| MostVisited.ViewCoversWindow | Assets/Src/Editor/Entry/EntryService.cs:124-128 | every window element equals some listed entry |
| MostVisited.ViewCounts | Assets/Src/Editor/Entry/EntryService.cs:124-128 | when `Equals` is an equivalence, each listed group's size is the number of window elements equal to its key |
| MostVisited.RemoveSame | Assets/Src/Editor/Entry/EntryService.cs:154 | no remaining element equals the removed entry |
| MostVisited.RemoveSameKeepsOthers | Assets/Src/Editor/Entry/EntryService.cs:154 | every element not equal to the argument survives with all its copies, in order, and nothing is added |
| MostVisited.RemoveSameCounts | Assets/Src/Editor/Entry/EntryService.cs:154 | removal never adds a copy, and keeps every copy of each element not equal to the argument |
| MostVisited.Slide | Assets/Src/Editor/Entry/EntryService.cs:144-148 | the new selection is the newest element; from a window within 200 the result stays within 200 and is the newest 200 of the window plus the selection |
| MostVisited.MostVisitedService.constructor | Assets/Src/Editor/Entry/EntryService.cs:123-137 | an empty window |
| MostVisited.MostVisitedService.GetEntries | Assets/Src/Editor/Entry/EntryService.cs:124-128 | every listed entry is a selection of the window, and every selection of the window equals some listed entry |
| MostVisited.MostVisitedService.RecordEntry | Assets/Src/Editor/Entry/EntryService.cs:139-151 | null changes nothing; otherwise the entry is appended without deduplication, index 0 is dropped once over 200, and one notification is raised; the 200 bound is kept |
| MostVisited.MostVisitedService.RemoveEntry | Assets/Src/Editor/Entry/EntryService.cs:153-156 | removes every element equal to the argument (none for null) and notifies; the bound is kept |
| MostVisited.MostVisitedService.RemoveAll | Assets/Src/Editor/Entry/EntryService.cs:17-19 | the interface default only notifies |
| MostVisited.MostVisitedService.RemoveAllWhere | Assets/Src/Editor/Entry/EntryService.cs:158 | changes nothing |
| Favorites.Trues | Assets/Src/Editor/Entry/EntryService.cs:237 | `n` emitted `true` events |
| Favorites.Pinned | Assets/Src/Editor/Entry/EntryService.cs:197-212 | the list grows by one exactly when no equal entry was pinned and the entry is added (window open, or a favourite); then the entry is listed |
| Favorites.KeepFavorites | Assets/Src/Editor/Entry/EntryService.cs:230 | only flagged entries are kept |
| Favorites.KeepFavoritesCounts | Assets/Src/Editor/Entry/EntryService.cs:230 | applying never adds a copy, and keeps every copy of each flagged entry |
| Favorites.KeepFavoritesExact | Assets/Src/Editor/Entry/EntryService.cs:230 | applying keeps exactly the flagged entries, every copy of each, in order |
| Favorites.KeepFavoritesIdempotent | Assets/Src/Editor/Entry/EntryService.cs:229-232 | applying twice keeps the first result |
| Favorites.KeepAllFlagged | Assets/Src/Editor/Entry/EntryService.cs:230 | a list of flagged entries is kept whole |
| Favorites.FavoritesService.constructor | Assets/Src/Editor/Entry/EntryService.cs:173-181 | no favourites and no snapshot |
| Favorites.FavoritesService.GetEntries | Assets/Src/Editor/Entry/EntryService.cs:176 | the view has the list's length and position `k` is list position `Count-1-k`: most recently pinned first |
| Favorites.FavoritesService.RecordFavorite | Assets/Src/Editor/Entry/EntryService.cs:183-190 | null does nothing; otherwise the flag is set and emitted first, then the entry is recorded as `Pinned` describes at the index `FindIndex` gave before the call; the entry's cache is untouched and the snapshot is kept |
| Favorites.FavoritesService.RecordEntry | Assets/Src/Editor/Entry/EntryService.cs:192-214 | null does nothing; otherwise the list becomes `Pinned(list, FindIndex, e, e.IsFavorite, windowOpen)` and one notification is raised |
| Favorites.FavoritesService.RemoveEntry | Assets/Src/Editor/Entry/EntryService.cs:216-225 | null does nothing; otherwise every occurrence of that very entry is removed, its flag is cleared and emitted, its cache is untouched, and one notification is raised |
| Favorites.FavoritesService.RemoveAll | Assets/Src/Editor/Entry/EntryService.cs:17-19 | the interface default only notifies |
| Favorites.FavoritesService.RemoveAllWhere | Assets/Src/Editor/Entry/EntryService.cs:227 | changes nothing |
| Favorites.FavoritesService.ApplyChanges | Assets/Src/Editor/Entry/EntryService.cs:229-233 | keeps only flagged entries, snapshots the result, notifies |
| Favorites.FavoritesService.StoreOriginalFavorites | Assets/Src/Editor/Entry/EntryService.cs:241-243 | the snapshot becomes the current list |
| Favorites.FavoritesService.DiscardChanges | Assets/Src/Editor/Entry/EntryService.cs:235-239 | without a snapshot the copy throws and nothing changes; otherwise the list is the snapshot, every restored entry is flagged and emits `true` once per occurrence with its cache untouched, and one notification is raised |
| Favorites.FlagAll | Assets/Src/Editor/Entry/EntryService.cs:237 | the `ForEach` loop flags every listed entry, emitting once per occurrence; no cache field changes |
| Favorites.FlagNext | Assets/Src/Editor/Entry/EntryService.cs:237 | one iteration: the entry at `i` is flagged and each of its occurrences has one more `true` counted over the first `i+1` positions |
| Favorites.CountStep | Assets/Src/Editor/Entry/EntryService.cs:237 | extending the counted prefix by one position adds one `true` exactly for the entry at that position |
| Favorites.PinnedWindowOpen | Assets/Src/Editor/Entry/EntryService.cs:199-204 | with the window open, an equal entry is replaced at its index and the others stay; with none, the entry is appended |
| Favorites.PinnedWindowOpenNoDuplicate | Assets/Src/Editor/Entry/EntryService.cs:197-204 | with the window open, recording never creates a second entry equal to `e` |
| Favorites.PinnedFavoriteMovesToEnd | Assets/Src/Editor/Entry/EntryService.cs:205-211 | with the window closed, a favourite ends the list, no other entry equals it, and the others keep their order |
| Favorites.PinnedNonFavoriteIgnored | Assets/Src/Editor/Entry/EntryService.cs:205-213 | with the window closed, a non-favourite leaves the list unchanged |
| Favorites.UnpinRemovesOnlyIt | Assets/Src/Editor/Entry/EntryService.cs:222 | removal by reference drops every occurrence of that entry and keeps every copy of the others, in order |
| Favorites.StagedUnpinThenApply | Assets/Src/Editor/Entry/EntryService.cs:199-201 | an unpin staged with the window open keeps the entry listed, and a following apply drops it |
| Coordinator.ServiceDict | Assets/Src/Editor/Entry/EntryServicePersistence.cs:14 | the dictionary has exactly the registered type names, each mapped to a registered service of that name |
| Coordinator.ServiceDictFindsEach | Assets/Src/Editor/Entry/EntryServicePersistence.cs:14 | with distinct names, each registered service is found under its own name |
| Coordinator.RegisteredSnoc | Assets/Src/Editor/Entry/EntryServicePersistence.cs:19-27 | appending a service registers its name and keeps every name already registered |
| Coordinator.ReadyServicesHaveTheirKind | Assets/Src/Editor/Entry/EntryServicePersistence.cs:34-54 | the three well-known names look up services of the matching class |
| Coordinator.EntryServicePersistence.TryGetService | Assets/Src/Editor/Entry/EntryServicePersistence.cs:63-70 | true with a registered service of that name exactly when one is registered; false with the default value otherwise |
| Coordinator.EntryServicePersistence.OnEnable | Assets/Src/Editor/Entry/EntryServicePersistence.cs:18-27 | afterwards all three services are registered; the list is the old list followed by the missing ones among History, MostVisited, Favorites, in that order; nothing is saved |
| Coordinator.EntryServicePersistence.RegisterIfMissing | Assets/Src/Editor/Entry/EntryServicePersistence.cs:19-21 | one step of `OnEnable`: append exactly when the name is not registered |
| Coordinator.EntryServicePersistence.Register | Assets/Src/Editor/Entry/EntryServicePersistence.cs:20 | `Add` appends the service, registers its name and keeps every name already registered |
| Coordinator.EntryServicePersistence.RecordSelection | Assets/Src/Editor/Entry/EntryServicePersistence.cs:33-37 | History records first and its cursor never moves: null, a throw or an entry equal to the one under the cursor leaves its log and count alone, otherwise the log becomes `Recorded` and one notification is raised; if History throws, MostVisited is untouched and nothing is saved; otherwise MostVisited slides its window (not for null) and one save happens; Favorites is never touched |
| Coordinator.Dispatch | Assets/Src/Editor/Entry/EntryServicePersistence.cs:34-35 | History as its `RecordEntry` says, then MostVisited as its `RecordEntry` says unless History threw |
| Coordinator.EntryServicePersistence.RecordFavorites | Assets/Src/Editor/Entry/EntryServicePersistence.cs:39-42 | only Favorites and the entry change: the entry's flag is set and emitted, the list becomes `Pinned` at the index found before the call, one notification (none for null), the snapshot and the entry's cache are kept; then one save |
| Coordinator.EntryServicePersistence.RemoveFromFavorites | Assets/Src/Editor/Entry/EntryServicePersistence.cs:44-47 | only Favorites and the entry change: every occurrence of the entry is removed, its flag is cleared and emitted, one notification (none for null), the snapshot and the entry's cache are kept; then one save |
| Coordinator.EntryServicePersistence.JumpToPreviousSelection | Assets/Src/Editor/Entry/EntryServicePersistence.cs:49-51 | exactly History's `PreviousSelection`: the log and counters are kept, an empty log gives null with the cursor kept, otherwise the cursor steps back and the entry there is returned; the other services are untouched |
| Coordinator.EntryServicePersistence.JumpToNextSelection | Assets/Src/Editor/Entry/EntryServicePersistence.cs:53-55 | exactly History's `NextSelection`: the log and counters are kept, an empty log gives null with the cursor kept, otherwise the cursor steps forward and the entry there is returned; the other services are untouched |
| Preferences.IndexOfKey | Assets/Src/Editor/Preference/PreferencePersistence.cs:44 | `FindIndex`: -1 or the first position with that key |
| Preferences.ToggleValue | Assets/Src/Editor/Preference/PreferencePersistence.cs:39-41 | a key that no pair has reads as `false` |
| Preferences.ToggleValueIsFirstMatch | Assets/Src/Editor/Preference/PreferencePersistence.cs:39-41 | a present key reads as the value of its first pair |
| Preferences.UnknownKey | Assets/Src/Editor/Preference/PreferencePersistence.cs:39-44 | an unknown key reads `false` and cannot be written |
| Preferences.PreferencePersistence.GetToggleValue | Assets/Src/Editor/Preference/PreferencePersistence.cs:39-41 | a key `FindIndex` does not find reads `false`; a found key reads the value of its first pair |
| Preferences.PreferencePersistence.constructor | Assets/Src/Editor/Preference/PreferencePersistence.cs:19-37 | the ten default toggles in insertion order, and the global filter at `All` |
| Preferences.DefaultKeysDistinct | Assets/Src/Editor/Preference/PreferencePersistence.cs:25-37 | ten pairs under ten distinct keys |
| Preferences.DistinctKeysReadBack | Assets/Src/Editor/Preference/PreferencePersistence.cs:39-41 | with distinct keys, each pair's key reads as its value |
| Preferences.DefaultValues | Assets/Src/Editor/Preference/PreferencePersistence.cs:25-37 | each default key reads its documented value, e.g. "Show Destroyed Objects" false, "Draw Favorites" true |
| Preferences.PreferencePersistence.SetToggleValue | Assets/Src/Editor/Preference/PreferencePersistence.cs:43-46 | an unknown key throws with nothing changed; otherwise the first pair with that key is overwritten, then one notification and one save |
| Preferences.PreferencePersistence.UpdateSettings | Assets/Src/Editor/Preference/PreferencePersistence.cs:48-51 | one notification, then one save |
| Preferences.PreferencePersistence.SetGlobalStateFilter | Assets/Src/Editor/Preference/PreferencePersistence.cs:20-23 | stores the filter; nothing else changes |
| Preferences.GetAfterSet | Assets/Src/Editor/Preference/PreferencePersistence.cs:39-46 | reading a key after writing it gives the written value |
| Preferences.SetLeavesOtherKeys | Assets/Src/Editor/Preference/PreferencePersistence.cs:39-46 | writing one key leaves what every other key reads unchanged |
| Preferences.SetKeepsOtherPairs | Assets/Src/Editor/Preference/PreferencePersistence.cs:44 | writing keeps the length and every other pair |
| Window.Lower | Assets/Src/Editor/Window/MainWindow.cs:120 | lower-casing keeps the length and maps each character |
| Window.Split | Assets/Src/Editor/Window/MainWindow.cs:117 | splitting always gives at least one piece |
| Window.JoinSplit | Assets/Src/Editor/Window/MainWindow.cs:117 | joining the pieces with the separator gives back the search text |
| Window.SplitPiecesHaveNoSeparator | Assets/Src/Editor/Window/MainWindow.cs:117 | no keyword contains a space |
| Window.SplitWithoutSeparator | Assets/Src/Editor/Window/MainWindow.cs:117 | text without spaces is a single keyword |
| Window.ContainsIffOccurs | Assets/Src/Editor/Window/MainWindow.cs:120 | `Contains` holds exactly when the keyword occurs at some position of the label |
| Window.EmptyOccursEverywhere | Assets/Src/Editor/Window/MainWindow.cs:120 | the empty keyword occurs in every label |
| Window.ConsecutiveSeparatorsGiveEmptyPiece | Assets/Src/Editor/Window/MainWindow.cs:117 | two consecutive spaces produce an empty keyword |
| Window.MainWindow.constructor | Assets/Src/Editor/Window/MainWindow.cs:17-58 | no search text, the filter at `All`, and a pool of blank rows whose size is the service's `SizeLimit` as `CreateGUI` makes them |
| Window.MainWindow.IsMatch | Assets/Src/Editor/Window/MainWindow.cs:104-126 | the keyword loop answers `Matches`: false for a null element, true for a null or empty search, false for an empty label, else some keyword occurs in the lower-cased label |
| Window.Matches | Assets/Src/Editor/Window/MainWindow.cs:104-115 | a null element never matches; an empty search matches every element; an empty label matches no non-empty search |
| Window.DoubleSpaceMatchesAnyLabel | Assets/Src/Editor/Window/MainWindow.cs:117-125 | a search with two spaces in a row matches every non-empty label |
| Window.SingleKeyword | Assets/Src/Editor/Window/MainWindow.cs:117-125 | a search without spaces matches exactly when it occurs in the lower-cased label |
| Window.KeywordIsNotLowered | Assets/Src/Editor/Window/MainWindow.cs:120 | the keyword is not lower-cased: "A" does not match the label "ABC" |
| Window.MainWindow.PassFilter | Assets/Src/Editor/Window/MainWindow.cs:128-142 | null never passes; otherwise the entry's state before the call is judged by `Admits`; with a zero filter the state is never asked for and the entry is untouched; otherwise a GameObject entry is left with `RestoredCache`; the favourite flag never changes |
| Window.Admits | Assets/Src/Editor/Window/MainWindow.cs:133-139 | with a non-zero filter `NotGameObject` always passes; with `All` every state passes |
| Window.AdmitsBySubset | Assets/Src/Editor/Window/MainWindow.cs:133 | with a non-zero filter, a state passes iff all its bits are in the filter |
| Window.ZeroFilterDefersToGlobal | Assets/Src/Editor/Window/MainWindow.cs:137-139 | a zero filter passes everything exactly when the global filter is `All` |
| Window.MainWindow.ToggleStateFilterFlag | Assets/Src/Editor/Window/MainWindow.cs:162-171 | the filter becomes `Toggled(filter, state)` and the view is redrawn once |
| Window.Toggled | Assets/Src/Editor/Window/MainWindow.cs:162-168 | bits outside the flag are kept; a fully set flag is cleared; otherwise the flag becomes fully set |
| Window.ToggleTwice | Assets/Src/Editor/Window/MainWindow.cs:162-168 | toggling twice is the identity when the flag was wholly set or wholly clear |
| Window.ToggleSingleFlagTwice | Assets/Src/Editor/Window/MainWindow.cs:162-168 | toggling a single-bit flag twice is the identity |
| Window.ToggleTwicePartialFlag | Assets/Src/Editor/Window/MainWindow.cs:162-168 | a partly set multi-bit flag does not come back: `Loaded` toggled twice by `SceneInstance` ends at 0 |
| Window.MainWindow.ReloadEntryList | Assets/Src/Editor/Window/MainWindow.cs:66-75 | row `i` shows `entries[i]` for every row below the entry count, and every other row is reset to null |

## Left out

- The editor itself: object liveness, scene loading, play mode and identifier lookup are the `Host` parameter, not behaviour. `GetGlobalObjectIdSlow` is taken to give the identifier an object carries.
- The printed form of an unset GlobalObjectId is taken to be the empty string, so a fresh `Entry.None` is not "not referencing". Unity's `GlobalObjectId.ToString` is not part of this model.
- Prefab classification, icons (`AssetPreview`), `Ping` and everything else that focuses windows or opens assets are editor side effects with no bearing on the lists.
- `Entry.GetHashCode` is not modelled. It returns 0 when `Ref` is null, so two entries that `Equals` reports equal can hash differently. The most-visited grouping is modelled by `Equals` alone. With a hash mismatch, `GroupBy` can put such entries in different groups.
- Inside the services, entries are compared with the pure `Same`. The restore side effect of each `Equals` call on list elements is not modelled there. It is modelled for a single `Entry.Equals`.
- MostVisited.ViewCounts: the count of each group is proved only when `Equals` is an equivalence on the window. `Equals` mixes identifier and live-reference comparison and need not be transitive.
- Serialization (`ScriptableSingleton`, `[SerializeField]`, the file paths) is not modelled. `Save(true)` is only counted.
- The listener wiring is not modelled: `OnUpdated.AddListener(OnServiceUpdate)` in `OnEnable`, `OnDisable`, and the saves that listener triggers. The coordinator counts only its explicit saves.
- A null or missing `_entryServices` list is not modelled, and neither is a null service inside it. The list starts empty and holds three non-null services.
- `SizeLimit` of MostVisited (100) and of Favorites (200) is declared as a constant. No operation of either service enforces it.
- Window.Lower: lower-cases only the ASCII letters. .NET's culture-sensitive `ToLower` on other characters is not modelled.
- Window.MainWindow.ReloadEntryList: a row element is modelled only by the entry it shows. Setting up its label, icon and colour is UI.
- The window's UI construction, menus, dialogs and `ReloadView` are not modelled. `ReloadView` is counted by `ToggleStateFilterFlag`.
- Window.MainWindow.PassFilter takes the global filter as a parameter. `PreferencePersistence.instance.GlobalStateFilter` is not read through a singleton.
