/** The thread's vertical stepper: which step is current, which statuses a step offers, and
    the add-step form. */
module ThreadActionsPanel {
  import opened Prelude
  import opened Records
  import opened Store
  import Text
  import ActionList
  import ThreadActionSequencer

  /** `findIndex(a => a.status === "pending")`: the first pending position, or -1. */
  function FirstPendingIndex(s: seq<Action>): (r: int)
    ensures r == -1 <==> forall i :: 0 <= i < |s| ==> !IsPending(s[i])
    ensures r != -1 ==> 0 <= r < |s| && IsPending(s[r]) && forall j :: 0 <= j < r ==> !IsPending(s[j])
    decreases |s|
  {
    if s == [] then -1
    else if IsPending(s[0]) then 0
    else
      var r := FirstPendingIndex(s[1..]);
      if r == -1 then -1 else r + 1
  }

  /** The step drawn as the current one. */
  predicate IsCurrent(s: seq<Action>, index: int)
    requires 0 <= index < |s|
  {
    IsPending(s[index]) && index == FirstPendingIndex(s)
  }

  /** Exactly one step is current when some step is pending, and none otherwise; it is the
      first pending one. */
  lemma OneCurrentStep(s: seq<Action>)
    ensures (exists i :: 0 <= i < |s| && IsCurrent(s, i)) <==> exists i :: 0 <= i < |s| && IsPending(s[i])
    ensures forall i, j :: 0 <= i < |s| && 0 <= j < |s| && IsCurrent(s, i) && IsCurrent(s, j) ==> i == j
    ensures forall i :: 0 <= i < |s| && IsCurrent(s, i) ==> forall j :: 0 <= j < i ==> !IsPending(s[j])
  {
    var r := FirstPendingIndex(s);
    if r != -1 {
      assert IsCurrent(s, r);
    }
  }

  /** The front scan by position and the front scan by value pick the same action. */
  lemma {:induction false} FirstPendingIndexAgrees(s: seq<Action>)
    ensures FirstPendingIndex(s) == -1 ==> ActionList.FirstPending(s).None?
    ensures FirstPendingIndex(s) != -1 ==> ActionList.FirstPending(s) == Some(s[FirstPendingIndex(s)])
    decreases |s|
  {
    if s != [] && !IsPending(s[0]) {
      FirstPendingIndexAgrees(s[1..]);
    }
  }

  /** The step the thread highlights when its list is current is the step the cross-cutting
      action list shows under the thread's title, and a thread the action list shows has a
      highlighted step. */
  lemma CurrentStepIsListed(recs: seq<Action>, t: Thread)
    ensures var s := ThreadActionSequencer.Loaded(recs, t.id);
            forall i :: 0 <= i < |s| && IsCurrent(s, i) ==>
              ActionList.Entry(t, recs) == Some(ActionList.Listed(s[i], Some(t.title), false))
    ensures var s := ThreadActionSequencer.Loaded(recs, t.id);
            ActionList.Entry(t, recs).Some? ==> exists i :: 0 <= i < |s| && IsCurrent(s, i)
  {
    var s := ThreadActionSequencer.Loaded(recs, t.id);
    FirstPendingIndexAgrees(s);
    var r := FirstPendingIndex(s);
    if r != -1 {
      assert IsCurrent(s, r);
    }
  }

  /** The buttons a step shows: Complete, Discard and Delegate on a pending step, none else. */
  function OfferedStatuses(a: Action): seq<string> {
    if IsPending(a) then ["completed", "discarded", "delegated"] else []
  }

  /** Every offered status closes the step: it is no longer pending, so the highlight moves
      on, and the thread-level rule stamps it with the completion time. */
  lemma OfferedStatusesClose(a: Action, now: int)
    ensures |OfferedStatuses(a)| > 0 <==> IsPending(a)
    ensures forall st :: st in OfferedStatuses(a) ==>
              ThreadActionSequencer.Terminal(st) &&
              !IsPending(ThreadActionSequencer.ThreadStatusUpdate(a, st, now)) &&
              ThreadActionSequencer.ThreadStatusUpdate(a, st, now).completedAt == Some(now)
  {
  }

  /** `ThreadActions({ db, threadId })`: the form state next to the hook it drives. */
  class ThreadActionsPanel {
    const hook: ThreadActionSequencer.ThreadActionsHook
    var newActionText: string

    constructor (hook: ThreadActionSequencer.ThreadActionsHook)
      ensures this.hook == hook && newActionText == ""
    {
      this.hook := hook;
      newActionText := "";
    }

    /** `handleAddAction`: blank text (after trimming) does nothing; otherwise the text as
        typed becomes a new step and the form is cleared. */
    method HandleAddAction(now: int) returns (added: bool)
      requires hook.db.Valid()
      modifies this, hook, hook.db
      ensures hook.db.Valid()
      ensures added <==> !Text.IsBlank(old(newActionText))
      ensures !added ==> newActionText == old(newActionText) && hook.actions == old(hook.actions) &&
                         hook.db.actions == old(hook.db.actions)
      ensures added ==> newActionText == "" &&
                        hook.db.actions == old(hook.db.actions).Add(
                          ThreadActionSequencer.NewStep(old(newActionText), hook.threadId, now, old(hook.actions))
                            .(id := old(hook.db.actions.next))) &&
                        hook.actions == (if hook.threadId == 0 then old(hook.actions)
                                         else ThreadActionSequencer.Loaded(hook.db.actions.Records(), hook.threadId))
      ensures hook.db.threads == old(hook.db.threads) && hook.db.threadUpdates == old(hook.db.threadUpdates)
    {
      if Text.IsBlank(newActionText) {
        return false;
      }
      var _ := hook.AddThreadAction(newActionText, now);
      newActionText := "";
      added := true;
    }
  }
}
