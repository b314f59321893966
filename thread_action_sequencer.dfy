/** A thread's ordered action sequence: loading it in order, appending the next step, and
    closing a step with the thread-level completion rule. */
module ThreadActionSequencer {
  import opened Prelude
  import opened Records
  import opened Store
  import StableSort
  import ActionList

  /** `Math.max(...actions.map(a => a.order || 0))`, and -1 for an empty list. */
  function MaxOrder(s: seq<Action>): (r: int)
    ensures s == [] ==> r == -1
    ensures forall a :: a in s ==> OrderKey(a) <= r
    ensures s != [] ==> exists a :: a in s && OrderKey(a) == r
    decreases |s|
  {
    if |s| <= 1 then (if s == [] then -1 else OrderKey(s[0]))
    else
      var m := MaxOrder(s[..|s| - 1]);
      var last := s[|s| - 1];
      assert forall a :: a in s ==> a in s[..|s| - 1] || a == last;
      assert s[|s| - 2] in s[..|s| - 1];
      if OrderKey(last) <= m then m else OrderKey(last)
  }

  /** The order a new step gets: one past the largest order held, 0 for the first step. */
  function NextOrder(s: seq<Action>): (r: int)
    ensures forall a :: a in s ==> OrderKey(a) < r
    ensures s == [] ==> r == 0
    ensures s != [] ==> exists a :: a in s && r == OrderKey(a) + 1
  {
    MaxOrder(s) + 1
  }

  /** The statuses that count as closing a step at thread level. */
  predicate Terminal(status: string) {
    status == "completed" || status == "discarded" || status == "delegated"
  }

  /** `updateActionStatus`' update: the new status, and a completion time exactly for a
      terminal status; every other field is kept. */
  function ThreadStatusUpdate(a: Action, newStatus: string, now: int): (r: Action)
    ensures r.status == newStatus
    ensures r.completedAt.Some? <==> Terminal(newStatus)
    ensures r.completedAt.Some? ==> r.completedAt.value == now
    ensures r.(status := a.status, completedAt := a.completedAt) == a
  {
    a.(status := newStatus, completedAt := if Terminal(newStatus) then Some(now) else None)
  }

  /** The list-level rule and the thread-level rule agree except on "discarded" and
      "delegated", which only the thread-level rule stamps with a completion time. */
  lemma CompletionRulesDiffer(a: Action, newStatus: string, now: int)
    ensures ActionList.StatusChange(a, newStatus, now) == ThreadStatusUpdate(a, newStatus, now) <==>
            newStatus != "discarded" && newStatus != "delegated"
  {
    if newStatus == "discarded" || newStatus == "delegated" {
      assert ThreadStatusUpdate(a, newStatus, now).completedAt.Some?;
    }
  }

  /** The record `addThreadAction` stores (before the store gives it its key). */
  function NewStep(text: string, threadId: int, now: int, held: seq<Action>): Action {
    Action(0, text, "pending", Some(threadId), None, now, None, Some(NextOrder(held)))
  }

  /** A thread's actions as `loadThreadActions` holds them: the thread's records in key
      order, stably sorted by order. */
  function Loaded(recs: seq<Action>, threadId: int): seq<Action> {
    StableSort.SortBy(ActionsOfThread(recs, threadId), OrderKey)
  }

  /** The loaded list holds exactly the thread's actions, by non-decreasing order, with
      actions of equal order in key order. */
  lemma LoadedSequence(recs: seq<Action>, threadId: int, k: int)
    ensures multiset(Loaded(recs, threadId)) == multiset(ActionsOfThread(recs, threadId))
    ensures forall a :: a in Loaded(recs, threadId) <==> a in recs && a.threadId == Some(threadId)
    ensures StableSort.Sorted(Loaded(recs, threadId), OrderKey)
    ensures StableSort.KeyClass(Loaded(recs, threadId), OrderKey, k) ==
            StableSort.KeyClass(ActionsOfThread(recs, threadId), OrderKey, k)
  {
    var s := ActionsOfThread(recs, threadId);
    StableSort.SortPermutation(s, OrderKey);
    StableSort.SortSorted(s, OrderKey);
    StableSort.SortStable(s, OrderKey, k);
    forall a ensures a in Loaded(recs, threadId) <==> a in s {
      assert a in Loaded(recs, threadId) <==> a in multiset(Loaded(recs, threadId));
    }
  }

  /** Over the store, actions of equal order are held in ascending key order. */
  lemma LoadedTiesByKey(db: Database, threadId: int, k: int)
    requires db.Valid()
    ensures StableSort.Ascending(StableSort.KeyClass(Loaded(db.actions.Records(), threadId), OrderKey, k),
                                 ActionKey)
  {
    StoredKeyOrder(db);
    LoadedSequence(db.actions.Records(), threadId, k);
    StableSort.KeyClassAscending(ActionsOfThread(db.actions.Records(), threadId), OrderKey, k, ActionKey);
  }

    /** Appending a step numbered past the held list's largest order puts it at the end of the
      reloaded list, leaving every earlier step where it was. */
  lemma {:induction false} AppendedStepIsLast(recs: seq<Action>, threadId: int, n: Action)
    requires n.threadId == Some(threadId)
    requires OrderKey(n) == NextOrder(Loaded(recs, threadId))
    ensures Loaded(recs + [n], threadId) == Loaded(recs, threadId) + [n]
  {
    var s := ActionsOfThread(recs, threadId);
    assert (recs + [n])[..|recs|] == recs;
    assert ActionsOfThread(recs + [n], threadId) == s + [n];
    assert (s + [n])[..|s|] == s;
    var sorted := StableSort.SortBy(s, OrderKey);
    assert StableSort.SortBy(s + [n], OrderKey) == StableSort.Insert(sorted, n, OrderKey);
    StableSort.InsertLast(sorted, n, OrderKey);
  }

  /** `loadThreadActions`' query: scan the thread's actions, then sort them by order in place. */
  method QueryThreadActions(db: Database, threadId: int) returns (result: seq<Action>)
    ensures result == Loaded(db.actions.Records(), threadId)
  {
    var threadActions := ActionsOfThread(db.actions.Records(), threadId);
    var a := new Action[|threadActions|](k requires 0 <= k < |threadActions| => threadActions[k]);
    assert a[..] == threadActions;
    StableSort.SortInPlace(a, OrderKey);
    result := a[..];
  }

  /** `useThreadActions(db, threadId)`: the held sequence and its operations. A missing thread
      id is 0, which the source's `!threadId` guard treats as absent. */
  class ThreadActionsHook {
    const db: Database
    const threadId: int
    var actions: seq<Action>

    constructor (db: Database, threadId: int)
      ensures this.db == db && this.threadId == threadId && actions == []
    {
      this.db := db;
      this.threadId := threadId;
      actions := [];
    }

    /** `loadThreadActions`: without a thread id nothing happens; otherwise the held list
        becomes the thread's loaded list. */
    method LoadThreadActions()
      modifies this
      ensures actions == if threadId == 0 then old(actions) else Loaded(db.actions.Records(), threadId)
    {
      if threadId == 0 {
        return;
      }
      actions := QueryThreadActions(db, threadId);
    }

    /** `addThreadAction`: stores a pending step numbered one past the held list's largest
        order, then reloads. When the held list was current, the new step ends it. */
    method AddThreadAction(text: string, now: int) returns (id: int)
      requires db.Valid()
      modifies this, db
      ensures db.Valid()
      ensures id == old(db.actions.next)
      ensures db.actions == old(db.actions).Add(NewStep(text, threadId, now, old(actions)).(id := id))
      ensures db.threads == old(db.threads) && db.threadUpdates == old(db.threadUpdates)
      ensures actions == if threadId == 0 then old(actions) else Loaded(db.actions.Records(), threadId)
      ensures threadId != 0 && old(actions) == Loaded(old(db.actions.Records()), threadId) ==>
                actions == old(actions) + [NewStep(text, threadId, now, old(actions)).(id := id)]
    {
      ghost var before := db.actions;
      var newAction := NewStep(text, threadId, now, actions);
      id := db.AddAction(newAction);
      AddAppends(before, newAction.(id := id));
      if threadId != 0 && actions == Loaded(before.Records(), threadId) {
        AppendedStepIsLast(before.Records(), threadId, newAction.(id := id));
      }
      LoadThreadActions();
    }

    /** `updateActionStatus`: applies the thread-level completion rule, then reloads. A
        missing action fails before anything is written or reloaded. */
    method UpdateActionStatus(actionId: int, newStatus: string, now: int) returns (r: Outcome<StoreError>)
      requires db.Valid()
      modifies this, db
      ensures db.Valid()
      ensures r.Pass? <==> actionId in old(db.actions.rows)
      ensures r.Pass? ==>
                db.actions == old(db.actions).Put(actionId,
                                                  ThreadStatusUpdate(old(db.actions.rows[actionId]), newStatus, now)) &&
                actions == (if threadId == 0 then old(actions) else Loaded(db.actions.Records(), threadId))
      ensures r.Fail? ==> db.actions == old(db.actions) && actions == old(actions)
      ensures db.threads == old(db.threads) && db.threadUpdates == old(db.threadUpdates)
    {
      var action := db.actions.Get(actionId);
      if action.None? {
        return Fail(RecordNotFound);
      }
      var changed := ThreadStatusUpdate(action.value, newStatus, now);
      r := db.PutAction(changed);
      LoadThreadActions();
    }
  }
}
