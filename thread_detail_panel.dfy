/** One thread's page: its record, its update log newest first, and the handlers that add
    an update and change the thread's state or topic. */
module ThreadDetailPanel {
  import opened Prelude
  import opened Records
  import opened Store
  import StableSort
  import Text

  /** The state the selector shows: `currentThread.state || "open"`, so a missing or empty
      state reads as "open". */
  function DisplayedState(t: Thread): (r: string)
    ensures r == "open" <==> t.state.None? || t.state.value == "" || t.state.value == "open"
    ensures r != "open" ==> t.state == Some(r)
  {
    if t.state.Some? && t.state.value != "" then t.state.value else "open"
  }

  /** The update `handleAddUpdate` stores: the thread's id, the text as typed, the time. */
  function NewUpdate(threadId: int, content: string, now: int): ThreadUpdate {
    ThreadUpdate(0, threadId, content, now)
  }

  /** Over the store, updates with the same timestamp appear in the log in ascending key
      order. */
  lemma UpdateLogTiesByKey(db: Database, threadId: int, t: int)
    requires db.Valid()
    ensures StableSort.Ascending(
              StableSort.KeyClass(NewestFirst(UpdatesOfThread(db.threadUpdates.Records(), threadId)),
                                  NegTimestamp, -t),
              UpdateKey)
  {
    var us := UpdatesOfThread(db.threadUpdates.Records(), threadId);
    StoredKeyOrder(db);
    NewestFirstStable(us, t);
    StableSort.KeyClassAscending(us, NegTimestamp, -t, UpdateKey);
  }

    /** Prepending an update at least as new as the log's newest keeps the log newest first. */
  lemma PrependKeepsNewestFirst(us: seq<ThreadUpdate>, u: ThreadUpdate)
    requires StableSort.Sorted(us, NegTimestamp)
    requires us != [] ==> us[0].timestamp <= u.timestamp
    ensures StableSort.Sorted([u] + us, NegTimestamp)
  {
    var s := [u] + us;
    forall i, j | 0 <= i < j < |s| ensures NegTimestamp(s[i]) <= NegTimestamp(s[j]) {
      if i == 0 {
        assert NegTimestamp(us[0]) <= NegTimestamp(us[j - 1]);
      } else {
        assert s[i] == us[i - 1] && s[j] == us[j - 1];
      }
    }
  }

  /** When the new update is strictly newer than every update of the thread, the prepended
      log is exactly what a reload would show. (On a timestamp tie the reload puts the new
      update after the older ones of the same time.) */
  lemma PrependMatchesReload(recs: seq<ThreadUpdate>, threadId: int, u: ThreadUpdate)
    requires u.threadId == threadId
    requires forall v :: v in recs && v.threadId == threadId ==> v.timestamp < u.timestamp
    ensures [u] + NewestFirst(UpdatesOfThread(recs, threadId)) ==
            NewestFirst(UpdatesOfThread(recs + [u], threadId))
  {
    var p := UpdatesOfThread(recs, threadId);
    assert (recs + [u])[..|recs|] == recs;
    assert UpdatesOfThread(recs + [u], threadId) == p + [u];
    assert (p + [u])[..|p|] == p;
    var sorted := NewestFirst(p);
    assert NewestFirst(p + [u]) == StableSort.Insert(sorted, u, NegTimestamp);
    StableSort.SortPermutation(p, NegTimestamp);
    forall v | v in sorted ensures NegTimestamp(u) < NegTimestamp(v) {
      assert v in multiset(sorted);
    }
    StableSort.InsertFront(sorted, u, NegTimestamp);
  }

  /** `loadData`'s update query: scan the thread's updates, sort them in place newest first. */
  method QueryUpdates(db: Database, threadId: int) returns (result: seq<ThreadUpdate>)
    ensures result == NewestFirst(UpdatesOfThread(db.threadUpdates.Records(), threadId))
  {
    var updates := UpdatesOfThread(db.threadUpdates.Records(), threadId);
    var a := new ThreadUpdate[|updates|](k requires 0 <= k < |updates| => updates[k]);
    assert a[..] == updates;
    StableSort.SortInPlace(a, NegTimestamp);
    result := a[..];
  }

  /** `ThreadDetail({ db, thread })`: the page's state. `thread` is the record it was opened
      with; `currentThread` is absent when the store no longer holds it. */
  class ThreadDetail {
    const db: Database
    const thread: Thread
    var currentThread: Option<Thread>
    var updates: seq<ThreadUpdate>
    var newUpdate: string

    constructor (db: Database, thread: Thread)
      ensures this.db == db && this.thread == thread
      ensures currentThread == Some(thread) && updates == [] && newUpdate == ""
    {
      this.db := db;
      this.thread := thread;
      currentThread := Some(thread);
      updates := [];
      newUpdate := "";
    }

    /** `loadData`: re-reads the thread and its update log. */
    method LoadData()
      modifies this
      ensures currentThread == db.threads.Get(thread.id)
      ensures updates == NewestFirst(UpdatesOfThread(db.threadUpdates.Records(), thread.id))
      ensures newUpdate == old(newUpdate)
    {
      currentThread := db.threads.Get(thread.id);
      updates := QueryUpdates(db, thread.id);
    }

    /** `handleAddUpdate`: blank text (after trimming) does nothing; otherwise the text as
        typed is stored as an update of the thread, put in front of the shown log, and the
        form is cleared. */
    method HandleAddUpdate(now: int) returns (id: Option<int>)
      requires db.Valid()
      modifies this, db
      ensures db.Valid()
      ensures id.Some? <==> !Text.IsBlank(old(newUpdate))
      ensures id.None? ==> db.threadUpdates == old(db.threadUpdates) && updates == old(updates) &&
                           newUpdate == old(newUpdate)
      ensures id.Some? ==> id.value == old(db.threadUpdates.next) &&
                           db.threadUpdates == old(db.threadUpdates).Add(NewUpdate(thread.id, old(newUpdate), now).(id := id.value)) &&
                           updates == [NewUpdate(thread.id, old(newUpdate), now).(id := id.value)] + old(updates) &&
                           newUpdate == ""
      ensures db.threads == old(db.threads) && db.actions == old(db.actions)
      ensures currentThread == old(currentThread)
    {
      if Text.IsBlank(newUpdate) {
        return None;
      }
      var update := NewUpdate(thread.id, newUpdate, now);
      var newId := db.AddUpdate(update);
      updates := [update.(id := newId)] + updates;
      newUpdate := "";
      id := Some(newId);
    }

    /** `handleStateChange`: writes the shown thread back with the new state and shows it.
        The handlers run only on a rendered page, which needs the thread. */
    method HandleStateChange(newState: string) returns (r: Outcome<StoreError>)
      requires db.Valid() && currentThread.Some?
      modifies this, db
      ensures db.Valid()
      ensures r.Pass? <==> old(currentThread.value.id) >= 1
      ensures r.Pass? ==> var changed := old(currentThread.value).(state := Some(newState));
                          db.threads == old(db.threads).Put(changed.id, changed) &&
                          currentThread == Some(changed)
      ensures r.Fail? ==> db.threads == old(db.threads) && currentThread == old(currentThread)
      ensures db.threadUpdates == old(db.threadUpdates) && db.actions == old(db.actions)
      ensures updates == old(updates) && newUpdate == old(newUpdate)
    {
      var changed := currentThread.value.(state := Some(newState));
      r := db.PutThread(changed);
      if r.Pass? {
        currentThread := Some(changed);
      }
    }

    /** `handleTopicChange`: writes the shown thread back under the chosen topic and shows it. */
    method HandleTopicChange(topicId: int) returns (r: Outcome<StoreError>)
      requires db.Valid() && currentThread.Some?
      modifies this, db
      ensures db.Valid()
      ensures r.Pass? <==> old(currentThread.value.id) >= 1
      ensures r.Pass? ==> var changed := old(currentThread.value).(topicId := Some(topicId));
                          db.threads == old(db.threads).Put(changed.id, changed) &&
                          currentThread == Some(changed)
      ensures r.Fail? ==> db.threads == old(db.threads) && currentThread == old(currentThread)
      ensures db.threadUpdates == old(db.threadUpdates) && db.actions == old(db.actions)
      ensures updates == old(updates) && newUpdate == old(newUpdate)
    {
      var changed := currentThread.value.(topicId := Some(topicId));
      r := db.PutThread(changed);
      if r.Pass? {
        currentThread := Some(changed);
      }
    }
  }
}
