# thread-simple: the derivation and mutation layer, modelled in Dafny

thread-simple is a personal task tracker. Work is organised in **threads**. A thread has
a log of **updates** and an ordered sequence of **actions**. An action is a step with a
free-text status. Some actions are standalone and belong to no thread. Everything lives
in an IndexedDB database with one object store per entity and auto-incremented `id` keys.

This project models the layer that derives what the screens show from the stores and
writes user decisions back:

- `useActions` builds the cross-cutting list of actionable items.
  - With "all topics" (filter 0), the list holds every pending action, followed by each
    thread's current step (its earliest pending action by `order`) under the thread's title.
  - With any other filter, it holds the pending actions of that topic.
  - Every entry is flagged `untouched` when it is pending and was created before a cutoff
    one day back.
  - Its status change sets a completion time only for `"completed"`.
- `useThreadActions` holds one thread's actions sorted by `order`.
  - It appends a new step one past the held list's largest order.
  - Its status change sets a completion time for `"completed"`, `"discarded"` and
    `"delegated"`.
- `useThreads` lists the threads of a topic. Each thread carries its newest update, and
  the list is sorted by most recent activity.
- `ThreadActions` (the stepper) highlights the first pending step, offers
  Complete/Discard/Delegate on pending steps, and ignores blank input.
- `ThreadDetail` shows a thread's update log newest first.
  - It prepends a new update without reloading.
  - It writes state and topic changes back to the store.

How the model is laid out:

- **Stores.** An object store is a `Table` value (a key→record map plus the key
  generator's next number). A `Database` class holds the three stores the core touches.
  `getAll`, and `getAll` on an index at one exact key, return records in ascending key
  order. The model computes that by the recursive selections in `Records`. The lemmas
  `Store.RecordsByKey` and `Store.StoredKeyOrder` show the ids then ascend. Every
  selection keeps that order, so "first on a tie" means "least key" over the store.
- **Hooks and components.** Each hook and component that keeps React state is a class
  whose fields are that state. Its handlers are methods with `modifies` clauses, and
  each is proved to leave exactly the state a specification function describes.
  - The queries are read-only methods. They use the source's in-place array sort, and
    each is proved equal to its specification function.
  - The lemmas about those functions state what the screens promise.
- **Sorting.** JavaScript's `Array.prototype.sort` with a comparator is stable, and every
  comparator in the core is a difference of integer keys. The sort is specified as a
  stable insertion sort by key (`StableSort.SortBy`), with these proofs:
  - it is sorted and a permutation;
  - it keeps the input order among equal keys;
  - these properties determine its result (`StableSort.SortUnique`);
  - the in-place array version computes it.
  Descending sorts use the negated key.
- **Inputs from the environment.** Clocks become parameters: `now`, and the cutoff
  `oneDayAgo`. Timestamps are integers, standing for the millisecond values the source
  compares through `new Date(...)`. Statuses are free strings: the list view also sends
  `"delayed"`.

Behaviours the proofs make explicit:

- The "standalone" part of the all-topics list is every pending action, thread-bound
  ones included. So a thread's current step is listed twice: once bare and once under
  the thread's title (`ActionList.PendingThreadActionListedTwice`).
- The two completion-time rules agree except on `"discarded"` and `"delegated"`
  (`ThreadActionSequencer.CompletionRulesDiffer`).
- The step the stepper highlights is the step the action list shows for that
  thread (`ThreadActionsPanel.CurrentStepIsListed`).
- Prepending a new update gives the log a reload would show, provided the new update's
  timestamp is strictly newer than every existing one. On a tie a reload would place
  it after the older updates with the same time (`ThreadDetailPanel.PrependMatchesReload`).
- An operation on an action id the store does not hold throws in the source, because it
  writes to the `undefined` that `get` returned. In the model it fails with
  `RecordNotFound` before anything is written or reloaded.

## Model

| member | source | states |
|---|---|---|
| StableSort.SortSorted | hooks/useThreadActions.js:14 | the comparator sort leaves keys non-decreasing |
| StableSort.SortPermutation | hooks/useThreadActions.js:14 | the sort rearranges its input: same multiset, same length |
| StableSort.SortStable | hooks/useActions.js:56 | elements with equal keys keep their input order (every key class is unchanged) |
| StableSort.SortUnique | hooks/useThreads.js:30-38 | any sorted arrangement that keeps every key class equals the sort's result, so the insertion sort stands for any stable engine sort |
| StableSort.InsertLast | hooks/useThreadActions.js:26-34 | an element whose key is at least every key goes to the end |
| StableSort.InsertFront | components/ThreadDetail.js:44 | an element whose key is below every key goes to the front |
| StableSort.SortHeadIsFirstLeast | hooks/useThreads.js:21-25 | the head of the sort is exactly the element with the least key that comes first among those with that key |
| StableSort.FirstLeastUnique | hooks/useThreads.js:25 | at most one element is first among the least |
| StableSort.InsertInPlace | hooks/useThreadActions.js:14 | moving `a[i]` left past larger keys leaves `Insert` of it into the prefix, followed by the untouched rest |
| StableSort.SortInPlace | hooks/useThreadActions.js:14 | the in-place array sort leaves exactly `SortBy` of the old contents |
| Text.IsWhitespace | components/ThreadActions.js:9 | definition of the ECMAScript WhiteSpace and LineTerminator characters `trim` removes |
| Text.Trim | components/ThreadActions.js:9 | definition of `trim` as `TrimEnd` of `TrimStart` |
| Text.IsBlank | components/ThreadDetail.js:34 | definition of `!text.trim()`; its characterisation is `BlankIffAllWhitespace` |
| Text.TrimStart | components/ThreadActions.js:9 | the result is a suffix, everything removed is white space, and it does not start with white space |
| Text.TrimEnd | components/ThreadActions.js:9 | the result is a prefix, everything removed is white space, and it does not end with white space |
| Text.BlankIffAllWhitespace | components/ThreadDetail.js:34 | `!text.trim()` holds exactly when every character is ECMAScript white space or a line terminator |
| Store.RecordsByKey | services/database.js:45-49 | `getAll` lists each record once, under strictly ascending keys, and lists every key of the store |
| Store.RecordsAscend | services/database.js:45-49 | in a store whose records carry their own key as `id`, the ids strictly ascend along `getAll` |
| Store.StoredKeyOrder | services/database.js:24-49 | in a valid database, `getAll` of threads, updates and actions lists ids in strictly ascending order |
| Store.Table.Records | hooks/useActions.js:48 | definition of `getAll`: the records in ascending key order; its properties are `RecordsByKey` and `RecordsComplete` |
| Store.Table.Get | hooks/useActions.js:72 | definition of `get(key)`: the record under the key, or nothing |
| Store.Table.Put | hooks/useActions.js:76 | definition of `put`: the record under its key, with the generator moved past it; its property is `PutReplaces` |
| Store.Table.Add | hooks/useThreadActions.js:37 | definition of `add`: the record under the generator's key, generator advanced; its property is `AddAppends` |
| Store.RecordsComplete | services/database.js:24-28 | a record is listed exactly when some key holds it |
| Store.AddAppends | hooks/useThreadActions.js:37 | `add` appends its record at the end of the key order, under the generator's key, and keeps keys in range |
| Store.PutReplaces | hooks/useThreadActions.js:49 | `put` under an existing key replaces that record only and keeps every key |
| Store.Database.constructor | services/database.js:24-55 | the three stores start empty with their key generators at 1 |
| Store.Database.AddUpdate | components/ThreadDetail.js:42 | stores the update under a fresh key, which it returns, and leaves the other stores alone |
| Store.Database.AddAction | hooks/useThreadActions.js:37 | stores the action under a fresh key, which it returns, and leaves the other stores alone |
| Store.Database.PutThread | components/ThreadDetail.js:51 | replaces or inserts the thread under its id; refuses ids below 1 |
| Store.Database.PutAction | hooks/useActions.js:76 | replaces or inserts the action under its id; refuses ids below 1 |
| Records.IsPending | hooks/useActions.js:23 | definition of `status === "pending"`, the test every pending selection uses |
| Records.OrderKey | hooks/useThreadActions.js:14 | definition of the order comparator's key: the action's `order`, or 0 when it has none; its sort is `StableSort.SortBy` |
| Records.NewestFirst | components/ThreadDetail.js:19 | definition of the newest-first comparator sort as `SortBy` by negated timestamp; its properties are `NewestFirstOrder` and `NewestFirstStable` |
| Records.ActionsAt | hooks/useActions.js:21-22 | the `threadId` or `topicId` index scan of `actions` at one key keeps exactly the actions filed under that key, and keeps ascending key order |
| Records.ActionsOfThread | hooks/useActions.js:52-53 | definition of the `threadId` index scan as `ActionsAt` on that index |
| Records.ActionsOfTopic | hooks/useActions.js:21-22 | definition of the `topicId` index scan as `ActionsAt` on that index |
| Records.PendingOnly | hooks/useActions.js:12-13 | the `status` index scan at "pending" (and the pending filter) keeps exactly the pending actions, and keeps ascending key order |
| Records.ThreadsOfTopic | hooks/useThreads.js:13-14 | the `topicId` index scan keeps exactly the threads of that topic, and keeps ascending key order |
| Records.UpdatesOfThread | hooks/useThreads.js:19-20 | the `threadId` index scan keeps exactly the updates of that thread, and keeps ascending key order |
| Records.NewestFirstOrder | components/ThreadDetail.js:19 | the update log is a rearrangement of the thread's updates with timestamps non-increasing |
| Records.NewestFirstStable | hooks/useThreads.js:21 | updates with equal timestamps keep their input order |
| ActionList.FirstPending | hooks/useActions.js:59 | `find` returns a pending member, and returns nothing exactly when no member is pending |
| ActionList.FirstPendingIsHead | hooks/useActions.js:59 | `find` returns the first element of the pending selection |
| ActionList.SortPending | hooks/useActions.js:56-59 | selecting the pending actions after the order sort gives the order sort of the pending selection |
| ActionList.ThreadStep | hooks/useActions.js:56-59 | definition of sort-by-order-then-find; its meaning is `ThreadStepIsCurrentStep` |
| ActionList.ThreadStepIsCurrentStep | hooks/useActions.js:53-59 | sort-then-find picks exactly the pending action of least order, the first in input order on a tie, and nothing exactly when none is pending |
| ActionList.CurrentStepFirstByKey | hooks/useActions.js:52-59 | over the store, a thread's current step has the least key among its pending actions of the same order |
| ActionList.Entry | hooks/useActions.js:52-65 | definition of one iteration's contribution: the thread's step under its title; its meaning is `EntryIsCurrentStep` |
| ActionList.EntryIsCurrentStep | hooks/useActions.js:51-65 | a thread contributes an entry exactly when it has a pending action; the entry is its current step, a stored pending action of that thread, under the thread's title |
| ActionList.FirstPendingEntries | hooks/useActions.js:47-69 | every entry is some thread's entry, and every thread that has an entry contributes it |
| ActionList.EntryThread | hooks/useActions.js:52-64 | an entry carries the id of the thread that contributed it |
| ActionList.EntriesOnePerThread | hooks/useActions.js:47-69 | for threads with distinct ids, no two entries are steps of the same thread |
| ActionList.EntriesFollowThreads | hooks/useActions.js:48-66 | for threads in ascending key order, the entries' thread ids strictly ascend: entries come in the threads' order, at most one per thread |
| ActionList.EntriesInThreadKeyOrder | hooks/useActions.js:47-69 | over the store, the entries follow `getAll("threads")`: thread ids strictly ascend, one entry per thread at most |
| ActionList.ThreadEntry | hooks/useActions.js:52-65 | one loop iteration (scan, in-place sort, find) yields the thread's entry |
| ActionList.FirstPendingThreadActions | hooks/useActions.js:47-69 | the loop over the threads yields the entries of all threads in thread order |
| ActionList.Stale | hooks/useActions.js:31 | definition of the flag test: created before the cutoff and pending |
| ActionList.Tag | hooks/useActions.js:29-35 | definition of the map callback: flag a stale entry, keep the rest |
| ActionList.TagAll | hooks/useActions.js:29-35 | the map flags each entry in place and changes nothing else |
| ActionList.Plain | hooks/useActions.js:19 | the bare actions become entries without title or flag, one for one |
| ActionList.Selection | hooks/useActions.js:10-24 | definition of the two branches: filter 0 is every pending action then the thread entries, any other the topic's pending actions; its properties are the listing lemmas below |
| ActionList.Actionable | hooks/useActions.js:10-35 | definition of `loadActions`' result: the selection with stale entries flagged |
| ActionList.ListedArePending | hooks/useActions.js:29-35 | every listed action is a pending action of the store, flagged untouched exactly when created before the cutoff |
| ActionList.AllTopicsListsEveryPending | hooks/useActions.js:10-13 | with filter 0 every pending action of the store is listed bare |
| ActionList.AllTopicsListsEveryThread | hooks/useActions.js:15-19 | with filter 0 every thread with a pending action is listed with its current step under its title |
| ActionList.TopicListingOnlyTopic | hooks/useActions.js:20-24 | with a topic filter only that topic's pending actions are listed, without titles |
| ActionList.TopicListingEveryPending | hooks/useActions.js:20-24 | with a topic filter every pending action of that topic is listed |
| ActionList.PendingThreadActionListedTwice | hooks/useActions.js:11-19 | a thread's pending current step appears twice in the all-topics list, first bare, later under the thread's title |
| ActionList.StatusChange | hooks/useActions.js:71-76 | the new status is set, a completion time appears exactly for "completed" and is `now`, and no other field changes |
| ActionList.QueryActionable | hooks/useActions.js:6-35 | the query yields the flagged selection for the hook's filter |
| ActionList.ActionsHook.constructor | hooks/useActions.js:2-3 | the hook starts with an empty list |
| ActionList.ActionsHook.LoadActions | hooks/useActions.js:6-39 | the held list becomes the query's result |
| ActionList.ActionsHook.HandleActionStatusChange | hooks/useActions.js:71-80 | a held action is rewritten by the list-level rule and the list reloaded; a missing one fails with nothing written |
| ThreadActionSequencer.MaxOrder | hooks/useThreadActions.js:26-27 | -1 for no actions, else an order of some action that is at least every order |
| ThreadActionSequencer.NextOrder | hooks/useThreadActions.js:26-34 | the new order exceeds every held order: 0 for the first step, else one past some held order |
| ThreadActionSequencer.Terminal | hooks/useThreadActions.js:44-46 | definition of the three statuses that stamp a completion time |
| ThreadActionSequencer.NewStep | hooks/useThreadActions.js:29-35 | definition of the added record: pending, the hook's thread, created now, order `NextOrder` of the held list |
| ThreadActionSequencer.ThreadStatusUpdate | hooks/useThreadActions.js:41-48 | the new status is set, a completion time appears exactly for a terminal status and is `now`, and no other field changes |
| ThreadActionSequencer.CompletionRulesDiffer | hooks/useThreadActions.js:44-48 | the list-level and thread-level rules give the same record exactly when the status is neither "discarded" nor "delegated" |
| ThreadActionSequencer.Loaded | hooks/useThreadActions.js:10-15 | definition of the loaded list: the thread's index scan, sorted by order; its properties are `LoadedSequence` and `LoadedTiesByKey` |
| ThreadActionSequencer.LoadedSequence | hooks/useThreadActions.js:10-15 | the loaded list holds exactly the thread's actions, by non-decreasing order, equal orders in scan order |
| ThreadActionSequencer.LoadedTiesByKey | hooks/useThreadActions.js:11-14 | over the store, actions of equal order are held in ascending key order |
| ThreadActionSequencer.AppendedStepIsLast | hooks/useThreadActions.js:24-38 | a step numbered by the next-order rule lands at the end of the reloaded list, leaving the earlier steps in place |
| ThreadActionSequencer.QueryThreadActions | hooks/useThreadActions.js:10-14 | the scan plus in-place sort yields the loaded list |
| ThreadActionSequencer.ThreadActionsHook.constructor | hooks/useThreadActions.js:2-3 | the hook starts with an empty list |
| ThreadActionSequencer.ThreadActionsHook.LoadThreadActions | hooks/useThreadActions.js:6-17 | without a thread id nothing changes; otherwise the held list becomes the loaded list |
| ThreadActionSequencer.ThreadActionsHook.AddThreadAction | hooks/useThreadActions.js:24-39 | stores a pending step with the next order under a fresh key and reloads; if the held list was current, the new list is the old one plus the new step |
| ThreadActionSequencer.ThreadActionsHook.UpdateActionStatus | hooks/useThreadActions.js:41-52 | a held action is rewritten by the thread-level rule and the list reloaded; a missing one fails with nothing written |
| ThreadAggregator.Selected | hooks/useThreads.js:10-15 | filter 0 keeps every thread, any other keeps exactly that topic's threads |
| ThreadAggregator.Latest | hooks/useThreads.js:19-25 | definition of the first of the thread's updates after the newest-first sort, or nothing; its meaning is `LatestIsNewest` |
| ThreadAggregator.LatestIsNewest | hooks/useThreads.js:19-26 | a thread has a latest update exactly when it has updates, and it is the newest one, the first in scan order on a tie |
| ThreadAggregator.LatestFirstByKey | hooks/useThreads.js:20-25 | over the store, the latest update has the least key among the thread's updates with the newest timestamp |
| ThreadAggregator.LatestOf | hooks/useThreads.js:19-25 | the map callback's scan, in-place sort and first element yield `Latest` |
| ThreadAggregator.LatestHasMaxTimestamp | hooks/useThreads.js:21-25 | the latest update is one of the thread's updates, and its timestamp is at least every other |
| ThreadAggregator.Enrich | hooks/useThreads.js:17-28 | each selected thread is paired with its latest update, one for one |
| ThreadAggregator.EnrichKeepsKeyOrder | hooks/useThreads.js:17-28 | attaching updates keeps the threads' ascending key order |
| ThreadAggregator.Effective | hooks/useThreads.js:31-36 | definition of a thread's activity time: its latest update's timestamp, else its creation time |
| ThreadAggregator.Listing | hooks/useThreads.js:30-38 | definition of `loadThreads`' result: the enriched selection sorted by activity, newest first; its properties are the three lemmas below |
| ThreadAggregator.ListingContents | hooks/useThreads.js:17-28 | the listing is a rearrangement of the enriched threads: exactly the selected threads, each with its latest update |
| ThreadAggregator.ListingNewestFirst | hooks/useThreads.js:30-38 | activity times (latest update, else creation) never increase along the listing |
| ThreadAggregator.ListingStable | hooks/useThreads.js:30-38 | threads with equal activity times keep their selection order |
| ThreadAggregator.ListingTiesByKey | hooks/useThreads.js:8-38 | over the store, threads with equal activity times are listed in ascending key order |
| ThreadAggregator.QueryThreads | hooks/useThreads.js:8-38 | select, enrich with in-place-sorted updates, and sort in place yields the listing |
| ThreadAggregator.ThreadsHook.constructor | hooks/useThreads.js:2-3 | the hook starts with an empty list |
| ThreadAggregator.ThreadsHook.LoadThreads | hooks/useThreads.js:6-42 | the held list becomes the listing |
| ThreadActionsPanel.FirstPendingIndex | components/ThreadActions.js:33-35 | -1 exactly when nothing is pending, else the position of a pending step with none before it |
| ThreadActionsPanel.IsCurrent | components/ThreadActions.js:38-39 | definition of the highlight: pending and at the `findIndex` position; its properties are `OneCurrentStep` and `CurrentStepIsListed` |
| ThreadActionsPanel.OneCurrentStep | components/ThreadActions.js:37-39 | a step is current exactly when some step is pending; at most one is, and no pending step precedes it |
| ThreadActionsPanel.FirstPendingIndexAgrees | components/ThreadActions.js:33-35 | `findIndex` by position and `find` by value pick the same step |
| ThreadActionsPanel.CurrentStepIsListed | components/ThreadActions.js:31-39 | the highlighted step of a loaded thread is the entry the action list shows for it, and a thread shown there has a highlighted step |
| ThreadActionsPanel.OfferedStatuses | components/ThreadActions.js:109-130 | definition of the buttons: Complete, Discard and Delegate on a pending step, none else |
| ThreadActionsPanel.OfferedStatusesClose | components/ThreadActions.js:109-130 | only pending steps offer buttons, and every offered status is terminal, stamps `now` and leaves the step no longer pending |
| ThreadActionsPanel.ThreadActionsPanel.constructor | components/ThreadActions.js:2-5 | the form starts empty |
| ThreadActionsPanel.ThreadActionsPanel.HandleAddAction | components/ThreadActions.js:7-13 | blank input changes nothing; other input, as typed, is added as the next step and the form cleared |
| ThreadDetailPanel.DisplayedState | components/ThreadDetail.js:96 | the selector shows "open" exactly for a missing, empty or "open" state, and the stored state otherwise |
| ThreadDetailPanel.NewUpdate | components/ThreadDetail.js:36-40 | definition of the record `handleAddUpdate` stores: the thread's id, the text as typed, the time |
| ThreadDetailPanel.UpdateLogTiesByKey | components/ThreadDetail.js:17-19 | over the store, updates with the same timestamp appear in the log in ascending key order |
| ThreadDetailPanel.PrependKeepsNewestFirst | components/ThreadDetail.js:44 | prepending an update at least as new as the head keeps the log newest first |
| ThreadDetailPanel.PrependMatchesReload | components/ThreadDetail.js:42-44 | for an update strictly newer than all of the thread's, the prepended log equals the reloaded one |
| ThreadDetailPanel.QueryUpdates | components/ThreadDetail.js:17-20 | the scan plus in-place sort yields the thread's updates newest first |
| ThreadDetailPanel.ThreadDetail.constructor | components/ThreadDetail.js:1-6 | the page starts with the thread it was opened with, no updates and an empty form |
| ThreadDetailPanel.ThreadDetail.LoadData | components/ThreadDetail.js:9-27 | the shown thread is re-read from the store and the log is its updates newest first |
| ThreadDetailPanel.ThreadDetail.HandleAddUpdate | components/ThreadDetail.js:32-46 | blank input changes nothing; other input, as typed, is stored under a fresh key, put in front of the log, and the form cleared |
| ThreadDetailPanel.ThreadDetail.HandleStateChange | components/ThreadDetail.js:48-53 | the shown thread with the new state is written back and shown; on a refused write nothing changes |
| ThreadDetailPanel.ThreadDetail.HandleTopicChange | components/ThreadDetail.js:55-60 | the shown thread with the new topic is written back and shown; on a refused write nothing changes |

## Left out

- Database setup (`initDB`, the upgrade path, the `topics` store with its default topics, the `actionGenerators` store, secondary indexes the core never queries) and `useDatabase`: plumbing outside the derivation layer. The model starts from an empty database.
- `useTopics` and the topic list `ThreadDetail` loads for its selector: topics are only displayed.
- Rendering: markup, styles, icons, the loading spinner, `navigateTo`, and the `loading` flags. React effects, which decide when a load runs, are left out too; the model exposes the loads as methods.
- Concurrency: `Promise.all`, interleaving of awaited calls, transactions, and the lost update possible between a `get` and its `put`. Every operation runs atomically in the model.
- Dates: timestamps are integers, and `now` and `oneDayAgo` are parameters. ISO string formatting, `new Date` parsing, invalid dates (`NaN` in comparisons and comparators) and calendar-day arithmetic around daylight-saving changes are not modelled.
- Non-numeric `order` values: `order || 0` is modelled for a present integer or a missing value. `NaN` orders and their effect on `Math.max` and the comparator are not.
- Rejected storage requests are not modelled. In the source, a `get`, `put`, `add` or `getAll` that IndexedDB rejects (the store unavailable, a failed transaction) aborts the async handler before its later steps. The failures that would cause this are not modelled: every store call in the model succeeds, except for the refused keys below 1. So the model does not show `handleActionStatusChange` and `updateActionStatus` skipping the reload, `addThreadAction` skipping the reload, `handleAddUpdate`, `handleStateChange` and `handleTopicChange` leaving the page's state as it was, or a failed load leaving the previous list and the loading flag set.
- Store.Database.PutThread: refuses keys below 1, although IndexedDB would accept them. Every record the core writes back was read from the store, so its key came from the generator and is at least 1.
- Store.Database.PutAction: refuses keys below 1, for the same reason as PutThread.
- Store.Table.Put: moves the key generator to `k + 1` for an explicit integer key at or above it. Non-integer keys do not occur in the model.
- ThreadDetailPanel.ThreadDetail.HandleStateChange: requires the shown thread to be present. When `get` returns nothing, the page's own render (`currentThread.title`) throws before any selector exists. The same holds for HandleTopicChange.
- ThreadDetailPanel.ThreadDetail.HandleTopicChange: takes the already-parsed topic id. `parseInt` of the option value, and a `NaN` topic, are not modelled.
- ThreadActionSequencer.ThreadActionsHook: a missing thread id (`undefined`, `null` or 0, all of which `!threadId` rejects) is modelled as 0. The model stores `Some(0)` as the thread id of a step added without one. The source stores whatever `threadId` holds: 0 for 0, `null` for `null`, and a property whose value is `undefined` for `undefined`.
- The list view's status buttons in `ActionItem` (including "delayed") are rendering. Their effect is `HandleActionStatusChange` with a free status string.
