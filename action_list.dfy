/** The cross-cutting action list: every pending action, plus each thread's current step
    (its earliest pending action by order), with stale pending actions flagged untouched. */
module ActionList {
  import opened Prelude
  import opened Records
  import opened Store
  import StableSort

  /** An entry of the list: the action, the title of the thread it was picked from as that
      thread's current step, and the untouched flag. */
  datatype Listed = Listed(action: Action, threadTitle: Option<string>, untouched: bool)

  // ---------------------------------------------------------------------------------------
  // A thread's current step

  /** `find(a => a.status === "pending")`: the first pending action, scanning from the front. */
  function FirstPending(s: seq<Action>): (r: Option<Action>)
    ensures r.Some? ==> r.value in s && IsPending(r.value)
    ensures r.None? <==> forall a :: a in s ==> !IsPending(a)
    decreases |s|
  {
    if s == [] then None
    else if IsPending(s[0]) then Some(s[0])
    else
      assert forall a :: a in s ==> a == s[0] || a in s[1..];
      FirstPending(s[1..])
  }

  /** A thread's current step as the list computes it: sort the thread's actions by order,
      then take the first pending one. */
  function ThreadStep(s: seq<Action>): Option<Action> {
    FirstPending(StableSort.SortBy(s, OrderKey))
  }

  /** The reference definition of a thread's current step: `a` is pending, no pending action
      has a smaller order, and no pending action listed before `a` has the same order. */
  ghost predicate IsCurrentStep(a: Action, s: seq<Action>) {
    StableSort.FirstLeast(a, PendingOnly(s), OrderKey)
  }

  /** Selecting pending actions distributes over concatenation. */
  lemma {:induction false} PendingOnlyAppend(a: seq<Action>, b: seq<Action>)
    ensures PendingOnly(a + b) == PendingOnly(a) + PendingOnly(b)
    decreases |b|
  {
    if b == [] {
      assert a + b == a;
    } else {
      var b' := b[..|b| - 1];
      assert (a + b)[..|a + b| - 1] == a + b';
      PendingOnlyAppend(a, b');
    }
  }

  /** The front scan finds the first element of the pending selection. */
  lemma {:induction false} FirstPendingIsHead(s: seq<Action>)
    ensures FirstPending(s) == if PendingOnly(s) == [] then None else Some(PendingOnly(s)[0])
    decreases |s|
  {
    if s != [] {
      assert s == [s[0]] + s[1..];
      PendingOnlyAppend([s[0]], s[1..]);
      assert [s[0]][..0] == [];
      FirstPendingIsHead(s[1..]);
    }
  }

  /** The pending selection of a sorted sequence is sorted. */
  lemma {:induction false} PendingOnlySorted(s: seq<Action>)
    requires StableSort.Sorted(s, OrderKey)
    ensures StableSort.Sorted(PendingOnly(s), OrderKey)
    decreases |s|
  {
    if s != [] {
      var init := s[..|s| - 1];
      assert StableSort.Sorted(init, OrderKey) by {
        forall i, j | 0 <= i < j < |init| ensures OrderKey(init[i]) <= OrderKey(init[j]) {
          assert init[i] == s[i] && init[j] == s[j];
        }
      }
      PendingOnlySorted(init);
      var p := PendingOnly(init);
      forall x | x in p ensures OrderKey(x) <= OrderKey(s[|s| - 1]) {
        var i :| 0 <= i < |init| && init[i] == x;
        assert s[i] == x;
      }
    }
  }

  /** Taking one order class and selecting the pending actions commute. */
  lemma {:induction false} PendingClass(s: seq<Action>, k: int)
    ensures StableSort.KeyClass(PendingOnly(s), OrderKey, k) ==
            PendingOnly(StableSort.KeyClass(s, OrderKey, k))
    decreases |s|
  {
    if s != [] {
      var init, x := s[..|s| - 1], s[|s| - 1];
      PendingClass(init, k);
      var xs := if IsPending(x) then [x] else [];
      StableSort.KeyClassAppend(PendingOnly(init), xs, OrderKey, k);
      var cs := if OrderKey(x) == k then [x] else [];
      PendingOnlyAppend(StableSort.KeyClass(init, OrderKey, k), cs);
      if IsPending(x) {
        assert StableSort.KeyClass(xs, OrderKey, k) == cs by {
          assert xs[..0] == [];
        }
      }
    }
  }

  /** Selecting pending actions after the stable sort is the same as sorting the selection. */
  lemma SortPending(s: seq<Action>)
    ensures PendingOnly(StableSort.SortBy(s, OrderKey)) == StableSort.SortBy(PendingOnly(s), OrderKey)
  {
    var sorted := StableSort.SortBy(s, OrderKey);
    StableSort.SortSorted(s, OrderKey);
    PendingOnlySorted(sorted);
    forall k
      ensures StableSort.KeyClass(PendingOnly(sorted), OrderKey, k) ==
              StableSort.KeyClass(PendingOnly(s), OrderKey, k)
    {
      PendingClass(sorted, k);
      StableSort.SortStable(s, OrderKey, k);
      PendingClass(s, k);
    }
    StableSort.SortUnique(PendingOnly(s), PendingOnly(sorted), OrderKey);
  }

  /** When nothing is pending, the sort-then-find picks nothing and nothing is a current step. */
  lemma NoPendingNoStep(s: seq<Action>)
    requires PendingOnly(s) == []
    ensures ThreadStep(s).None? && forall a :: !IsCurrentStep(a, s)
  {
    SortPending(s);
    FirstPendingIsHead(StableSort.SortBy(s, OrderKey));
    StableSort.SortPermutation(PendingOnly(s), OrderKey);
  }

  /** When something is pending, the sort-then-find picks the current step and only it. */
  lemma SomePendingStep(s: seq<Action>)
    requires PendingOnly(s) != []
    ensures ThreadStep(s).Some? && forall a :: ThreadStep(s) == Some(a) <==> IsCurrentStep(a, s)
  {
    var p := PendingOnly(s);
    SortPending(s);
    FirstPendingIsHead(StableSort.SortBy(s, OrderKey));
    StableSort.SortHeadIsFirstLeast(p, OrderKey);
  }

  /** The list's sort-then-find picks exactly the reference current step, and picks nothing
      exactly when the thread has no pending action. */
  lemma ThreadStepIsCurrentStep(s: seq<Action>)
    ensures ThreadStep(s).None? <==> forall a :: a in s ==> !IsPending(a)
    ensures forall a :: ThreadStep(s) == Some(a) <==> IsCurrentStep(a, s)
  {
    var p := PendingOnly(s);
    if p == [] {
      NoPendingNoStep(s);
    } else {
      SomePendingStep(s);
      assert p[0] in p;
    }
  }

  // ---------------------------------------------------------------------------------------
  // The per-thread entries and the whole list

  /** The entry one thread contributes: its current step, carrying the thread's title. */
  function Entry(t: Thread, acts: seq<Action>): Option<Listed> {
    var step := ThreadStep(ActionsOfThread(acts, t.id));
    if step.Some? then Some(Listed(step.value, Some(t.title), false)) else None
  }

  /** A thread contributes an entry exactly when one of its actions is pending, and that
      entry is its current step under the thread's own title. */
  lemma EntryIsCurrentStep(t: Thread, acts: seq<Action>)
    ensures Entry(t, acts).None? <==>
            forall a :: a in acts && a.threadId == Some(t.id) ==> !IsPending(a)
    ensures Entry(t, acts).Some? ==>
              Entry(t, acts).value.threadTitle == Some(t.title) &&
              !Entry(t, acts).value.untouched &&
              Entry(t, acts).value.action in acts &&
              Entry(t, acts).value.action.threadId == Some(t.id) &&
              IsPending(Entry(t, acts).value.action) &&
              IsCurrentStep(Entry(t, acts).value.action, ActionsOfThread(acts, t.id))
  {
    var s := ActionsOfThread(acts, t.id);
    ThreadStepIsCurrentStep(s);
    if ThreadStep(s).Some? {
      var a := ThreadStep(s).value;
      StableSort.SortPermutation(s, OrderKey);
      assert a in multiset(StableSort.SortBy(s, OrderKey));
    }
  }

  /** `getFirstPendingThreadActions`: one entry per thread that has a pending action, in the
      threads' order. */
  function FirstPendingEntries(ts: seq<Thread>, acts: seq<Action>): (r: seq<Listed>)
    ensures forall e :: e in r ==> exists t :: t in ts && Entry(t, acts) == Some(e)
    ensures forall t :: t in ts && Entry(t, acts).Some? ==> Entry(t, acts).value in r
    decreases |ts|
  {
    if ts == [] then []
    else
      var init, t := ts[..|ts| - 1], ts[|ts| - 1];
      assert forall u :: u in ts ==> u in init || u == t;
      FirstPendingEntries(init, acts) + (if Entry(t, acts).Some? then [Entry(t, acts).value] else [])
  }

  /** An entry carries the id of the thread that contributed it. */
  lemma EntryThread(t: Thread, acts: seq<Action>)
    requires Entry(t, acts).Some?
    ensures Entry(t, acts).value.action.threadId == Some(t.id)
  {
    EntryIsCurrentStep(t, acts);
  }

  /** When thread ids are distinct, no two entries are steps of the same thread: each thread
      contributes at most one entry. */
  lemma {:induction false} EntriesOnePerThread(ts: seq<Thread>, acts: seq<Action>)
    requires forall i, j :: 0 <= i < j < |ts| ==> ts[i].id != ts[j].id
    ensures forall i, j :: 0 <= i < j < |FirstPendingEntries(ts, acts)| ==>
              FirstPendingEntries(ts, acts)[i].action.threadId !=
              FirstPendingEntries(ts, acts)[j].action.threadId
    decreases |ts|
  {
    if ts != [] {
      var init, last := ts[..|ts| - 1], ts[|ts| - 1];
      EntriesOnePerThread(init, acts);
      var before := FirstPendingEntries(init, acts);
      if Entry(last, acts).Some? {
        EntryThread(last, acts);
        forall e | e in before ensures e.action.threadId != Some(last.id) {
          var t :| t in init && Entry(t, acts) == Some(e);
          EntryThread(t, acts);
          var p :| 0 <= p < |init| && init[p] == t;
          assert ts[p] == t;
        }
        var r := FirstPendingEntries(ts, acts);
        assert r == before + [Entry(last, acts).value];
        forall i, j | 0 <= i < j < |r| ensures r[i].action.threadId != r[j].action.threadId {
          if j == |before| {
            assert r[i] in before;
          } else {
            assert r[i] == before[i] && r[j] == before[j];
          }
        }
      }
    }
  }

  /** When thread keys ascend, as in `getAll("threads")`, the entries' thread ids ascend with
      them: entries come in the threads' order. */
  lemma {:induction false} EntriesFollowThreads(ts: seq<Thread>, acts: seq<Action>)
    requires StableSort.Ascending(ts, ThreadKey)
    ensures forall i :: 0 <= i < |FirstPendingEntries(ts, acts)| ==>
              FirstPendingEntries(ts, acts)[i].action.threadId.Some?
    ensures forall i, j :: 0 <= i < j < |FirstPendingEntries(ts, acts)| ==>
              FirstPendingEntries(ts, acts)[i].action.threadId.value <
              FirstPendingEntries(ts, acts)[j].action.threadId.value
    decreases |ts|
  {
    if ts != [] {
      var init, last := ts[..|ts| - 1], ts[|ts| - 1];
      StableSort.AscendingInit(ts, ThreadKey);
      EntriesFollowThreads(init, acts);
      var before := FirstPendingEntries(init, acts);
      if Entry(last, acts).Some? {
        EntryThread(last, acts);
        forall e | e in before ensures e.action.threadId.Some? && e.action.threadId.value < last.id {
          var t :| t in init && Entry(t, acts) == Some(e);
          EntryThread(t, acts);
          assert ThreadKey(t) < ThreadKey(last);
        }
        var r := FirstPendingEntries(ts, acts);
        assert r == before + [Entry(last, acts).value];
        forall i | 0 <= i < |r| ensures r[i].action.threadId.Some? {
          if i < |before| {
            assert r[i] in before;
          }
        }
        forall i, j | 0 <= i < j < |r| ensures r[i].action.threadId.value < r[j].action.threadId.value {
          if j == |before| {
            assert r[i] in before;
          } else {
            assert r[i] == before[i] && r[j] == before[j];
          }
        }
      }
    }
  }

  /** Over the store, the entries follow `getAll("threads")`: their thread ids strictly
      ascend, so each thread contributes at most one entry. */
  lemma EntriesInThreadKeyOrder(db: Database)
    requires db.Valid()
    ensures forall i :: 0 <= i < |FirstPendingEntries(db.threads.Records(), db.actions.Records())| ==>
              FirstPendingEntries(db.threads.Records(), db.actions.Records())[i].action.threadId.Some?
    ensures forall i, j :: 0 <= i < j < |FirstPendingEntries(db.threads.Records(), db.actions.Records())| ==>
              FirstPendingEntries(db.threads.Records(), db.actions.Records())[i].action.threadId.value <
              FirstPendingEntries(db.threads.Records(), db.actions.Records())[j].action.threadId.value
  {
    StoredKeyOrder(db);
    EntriesFollowThreads(db.threads.Records(), db.actions.Records());
  }

  /** Over the store, ties in `order` go to the lower key: the current step's key is the
      least among the thread's pending actions of the same order. */
  lemma CurrentStepFirstByKey(db: Database, threadId: int)
    requires db.Valid()
    ensures ThreadStep(ActionsOfThread(db.actions.Records(), threadId)).Some? ==>
              forall b :: b in db.actions.Records() && b.threadId == Some(threadId) && IsPending(b) &&
                          OrderKey(b) == OrderKey(ThreadStep(ActionsOfThread(db.actions.Records(), threadId)).value)
                          ==> ThreadStep(ActionsOfThread(db.actions.Records(), threadId)).value.id <= b.id
  {
    var s := ActionsOfThread(db.actions.Records(), threadId);
    StoredKeyOrder(db);
    ThreadStepIsCurrentStep(s);
    if ThreadStep(s).Some? {
      var a := ThreadStep(s).value;
      StableSort.FirstLeastLeastRank(a, PendingOnly(s), OrderKey, ActionKey);
    }
  }

    lemma EntriesSnoc(ts: seq<Thread>, i: nat, acts: seq<Action>)
    requires i < |ts|
    ensures FirstPendingEntries(ts[..i + 1], acts) ==
            FirstPendingEntries(ts[..i], acts) +
            (if Entry(ts[i], acts).Some? then [Entry(ts[i], acts).value] else [])
  {
    assert ts[..i + 1][..i] == ts[..i];
  }

  /** An untouched entry is a pending action created before the cutoff. */
  predicate Stale(a: Action, oneDayAgo: int) {
    a.createdAt < oneDayAgo && IsPending(a)
  }

  function Tag(e: Listed, oneDayAgo: int): Listed {
    if Stale(e.action, oneDayAgo) then e.(untouched := true) else e
  }

  /** The `map` that flags stale entries, entry by entry. */
  function TagAll(s: seq<Listed>, oneDayAgo: int): (r: seq<Listed>)
    ensures |r| == |s| && forall i :: 0 <= i < |s| ==> r[i] == Tag(s[i], oneDayAgo)
    decreases |s|
  {
    if s == [] then [] else TagAll(s[..|s| - 1], oneDayAgo) + [Tag(s[|s| - 1], oneDayAgo)]
  }

  /** Plain store records as entries: no thread title and no flag. */
  function Plain(s: seq<Action>): (r: seq<Listed>)
    ensures |r| == |s| && forall i :: 0 <= i < |s| ==> r[i] == Listed(s[i], None, false)
    decreases |s|
  {
    if s == [] then [] else Plain(s[..|s| - 1]) + [Listed(s[|s| - 1], None, false)]
  }

  /** The list before flagging. Topic filter 0 is "all topics": every pending action, then
      each thread's current step; any other filter: the pending actions of that topic. */
  function Selection(ts: seq<Thread>, acts: seq<Action>, topicId: int): seq<Listed> {
    if topicId == 0 then Plain(PendingOnly(acts)) + FirstPendingEntries(ts, acts)
    else Plain(PendingOnly(ActionsOfTopic(acts, topicId)))
  }

  /** `loadActions`: the selection with stale entries flagged. */
  function Actionable(ts: seq<Thread>, acts: seq<Action>, topicId: int, oneDayAgo: int): seq<Listed> {
    TagAll(Selection(ts, acts, topicId), oneDayAgo)
  }

  /** Every listed action is a pending action of the store, and it is flagged untouched
      exactly when it was created before the cutoff. */
  lemma ListedArePending(ts: seq<Thread>, acts: seq<Action>, topicId: int, oneDayAgo: int)
    ensures forall e :: e in Actionable(ts, acts, topicId, oneDayAgo) ==>
              e.action in acts && IsPending(e.action) &&
              (e.untouched <==> e.action.createdAt < oneDayAgo)
  {
    var sel := Selection(ts, acts, topicId);
    var l := Actionable(ts, acts, topicId, oneDayAgo);
    forall e | e in sel ensures e.action in acts && IsPending(e.action) && !e.untouched {
      if topicId == 0 && e !in Plain(PendingOnly(acts)) {
        var t :| t in ts && Entry(t, acts) == Some(e);
        EntryIsCurrentStep(t, acts);
      }
    }
    forall e | e in l
      ensures e.action in acts && IsPending(e.action) && (e.untouched <==> e.action.createdAt < oneDayAgo)
    {
      var i :| 0 <= i < |l| && l[i] == e;
      assert sel[i] in sel;
    }
  }

  /** With "all topics", every pending action is listed as itself. */
  lemma AllTopicsListsEveryPending(ts: seq<Thread>, acts: seq<Action>, oneDayAgo: int)
    ensures forall a :: a in acts && IsPending(a) ==>
              Tag(Listed(a, None, false), oneDayAgo) in Actionable(ts, acts, 0, oneDayAgo)
  {
    var p := PendingOnly(acts);
    var sel := Selection(ts, acts, 0);
    var l := Actionable(ts, acts, 0, oneDayAgo);
    assert sel == Plain(p) + FirstPendingEntries(ts, acts);
    forall a | a in acts && IsPending(a) ensures Tag(Listed(a, None, false), oneDayAgo) in l {
      var i :| 0 <= i < |p| && p[i] == a;
      assert sel[i] == Plain(p)[i];
      assert l[i] == Tag(sel[i], oneDayAgo);
    }
  }

  /** With "all topics", every thread with a pending action is listed once more, with its
      current step under the thread's title, after all the bare entries. */
  lemma AllTopicsListsEveryThread(ts: seq<Thread>, acts: seq<Action>, oneDayAgo: int)
    ensures forall t :: t in ts && Entry(t, acts).Some? ==>
              Tag(Entry(t, acts).value, oneDayAgo) in Actionable(ts, acts, 0, oneDayAgo)
  {
    var p := PendingOnly(acts);
    var f := FirstPendingEntries(ts, acts);
    var sel := Selection(ts, acts, 0);
    var l := Actionable(ts, acts, 0, oneDayAgo);
    assert sel == Plain(p) + f;
    forall t | t in ts && Entry(t, acts).Some? ensures Tag(Entry(t, acts).value, oneDayAgo) in l {
      var j :| 0 <= j < |f| && f[j] == Entry(t, acts).value;
      assert sel[|p| + j] == f[j];
      assert l[|p| + j] == Tag(sel[|p| + j], oneDayAgo);
    }
  }

  /** A specific topic lists only that topic's pending actions, with no thread title. */
  lemma TopicListingOnlyTopic(ts: seq<Thread>, acts: seq<Action>, topicId: int, oneDayAgo: int)
    requires topicId != 0
    ensures forall e :: e in Actionable(ts, acts, topicId, oneDayAgo) ==>
              e.action in acts && e.action.topicId == Some(topicId) && IsPending(e.action) &&
              e.threadTitle == None
  {
    var p := PendingOnly(ActionsOfTopic(acts, topicId));
    var l := Actionable(ts, acts, topicId, oneDayAgo);
    assert l == TagAll(Plain(p), oneDayAgo);
    forall e | e in l
      ensures e.action in acts && e.action.topicId == Some(topicId) && IsPending(e.action) &&
              e.threadTitle == None
    {
      var i :| 0 <= i < |l| && l[i] == e;
      assert p[i] in p;
    }
  }

  /** A specific topic lists every pending action of that topic. */
  lemma TopicListingEveryPending(ts: seq<Thread>, acts: seq<Action>, topicId: int, oneDayAgo: int)
    requires topicId != 0
    ensures forall a :: a in acts && a.topicId == Some(topicId) && IsPending(a) ==>
              Tag(Listed(a, None, false), oneDayAgo) in Actionable(ts, acts, topicId, oneDayAgo)
  {
    var p := PendingOnly(ActionsOfTopic(acts, topicId));
    var l := Actionable(ts, acts, topicId, oneDayAgo);
    assert l == TagAll(Plain(p), oneDayAgo);
    forall a | a in acts && a.topicId == Some(topicId) && IsPending(a)
      ensures Tag(Listed(a, None, false), oneDayAgo) in l
    {
      var i :| 0 <= i < |p| && p[i] == a;
      assert l[i] == Tag(Listed(a, None, false), oneDayAgo);
    }
  }

  /** `a` appears at two positions of `l`: first bare, later under the title `title`. */
  predicate ListedTwice(l: seq<Listed>, a: Action, title: string) {
    exists i, j :: 0 <= i < j < |l| && l[i].action == a && l[i].threadTitle == None &&
                   l[j].action == a && l[j].threadTitle == Some(title)
  }

  lemma AppendListedTwice(x: seq<Listed>, y: seq<Listed>, e: Listed, title: string)
    requires Listed(e.action, None, false) in x && e in y && e.threadTitle == Some(title)
    ensures ListedTwice(x + y, e.action, title)
  {
    var i :| 0 <= i < |x| && x[i] == Listed(e.action, None, false);
    var j :| 0 <= j < |y| && y[j] == e;
    assert (x + y)[i] == x[i] && (x + y)[|x| + j] == y[j];
  }

  lemma TagAllListedTwice(l: seq<Listed>, a: Action, title: string, oneDayAgo: int)
    requires ListedTwice(l, a, title)
    ensures ListedTwice(TagAll(l, oneDayAgo), a, title)
  {
    var i, j :| 0 <= i < j < |l| && l[i].action == a && l[i].threadTitle == None &&
                l[j].action == a && l[j].threadTitle == Some(title);
    var r := TagAll(l, oneDayAgo);
    assert r[i] == Tag(l[i], oneDayAgo) && r[j] == Tag(l[j], oneDayAgo);
  }

  /** The "standalone" part of the all-topics list is not restricted to actions without a
      thread: a thread's pending current step is listed twice, once bare and once with the
      thread's title. */
  lemma PendingThreadActionListedTwice(ts: seq<Thread>, acts: seq<Action>, oneDayAgo: int, t: Thread)
    requires t in ts && Entry(t, acts).Some?
    ensures ListedTwice(Actionable(ts, acts, 0, oneDayAgo), Entry(t, acts).value.action, t.title)
  {
    var e := Entry(t, acts).value;
    EntryIsCurrentStep(t, acts);
    var p := PendingOnly(acts);
    assert e.action in p;
    var i :| 0 <= i < |p| && p[i] == e.action;
    assert Plain(p)[i] == Listed(e.action, None, false);
    AppendListedTwice(Plain(p), FirstPendingEntries(ts, acts), e, t.title);
    TagAllListedTwice(Selection(ts, acts, 0), e.action, t.title, oneDayAgo);
  }

  // ---------------------------------------------------------------------------------------
  // The status change

  /** `handleActionStatusChange`'s update: the new status, and a completion time only for
      "completed"; every other field is kept. */
  function StatusChange(a: Action, newStatus: string, now: int): (r: Action)
    ensures r.status == newStatus
    ensures r.completedAt.Some? <==> newStatus == "completed"
    ensures r.completedAt.Some? ==> r.completedAt.value == now
    ensures r.(status := a.status, completedAt := a.completedAt) == a
  {
    a.(status := newStatus, completedAt := if newStatus == "completed" then Some(now) else None)
  }

  // ---------------------------------------------------------------------------------------
  // The queries and the hook

  /** One iteration of `getFirstPendingThreadActions`: scan the thread's actions, sort them by
      order in place and keep the first pending one. */
  method ThreadEntry(acts: seq<Action>, thread: Thread) returns (entry: Option<Listed>)
    ensures entry == Entry(thread, acts)
  {
    var threadActions := ActionsOfThread(acts, thread.id);
    var a := new Action[|threadActions|](k requires 0 <= k < |threadActions| => threadActions[k]);
    assert a[..] == threadActions;
    StableSort.SortInPlace(a, OrderKey);
    var firstPending := FirstPending(a[..]);
    if firstPending.Some? {
      entry := Some(Listed(firstPending.value, Some(thread.title), false));
    } else {
      entry := None;
    }
  }

  /** `getFirstPendingThreadActions`: the entries of every thread, in the threads' order. */
  method FirstPendingThreadActions(db: Database) returns (result: seq<Listed>)
    ensures result == FirstPendingEntries(db.threads.Records(), db.actions.Records())
  {
    var threads := db.threads.Records();
    var acts := db.actions.Records();
    result := [];
    for i := 0 to |threads|
      invariant result == FirstPendingEntries(threads[..i], acts)
    {
      var entry := ThreadEntry(acts, threads[i]);
      if entry.Some? {
        result := result + [entry.value];
      }
      EntriesSnoc(threads, i, acts);
    }
    assert threads[..|threads|] == threads;
  }

  /** `loadActions`' query against the current store. */
  method QueryActionable(db: Database, topicId: int, oneDayAgo: int) returns (list: seq<Listed>)
    ensures list == Actionable(db.threads.Records(), db.actions.Records(), topicId, oneDayAgo)
  {
    var selection: seq<Listed>;
    if topicId == 0 {
      var standardActions := PendingOnly(db.actions.Records());
      var threadActions := FirstPendingThreadActions(db);
      selection := Plain(standardActions) + threadActions;
    } else {
      selection := Plain(PendingOnly(ActionsOfTopic(db.actions.Records(), topicId)));
    }
    list := TagAll(selection, oneDayAgo);
  }

  /** `useActions(db, topicId)`: the list it holds and its two operations. */
  class ActionsHook {
    const db: Database
    const topicId: int
    var actions: seq<Listed>

    constructor (db: Database, topicId: int)
      ensures this.db == db && this.topicId == topicId && actions == []
    {
      this.db := db;
      this.topicId := topicId;
      actions := [];
    }

    /** `loadActions`: replaces the held list with the query's result. */
    method LoadActions(oneDayAgo: int)
      modifies this
      ensures actions == Actionable(db.threads.Records(), db.actions.Records(), topicId, oneDayAgo)
    {
      actions := QueryActionable(db, topicId, oneDayAgo);
    }

    /** `handleActionStatusChange`: rewrites the action's status and completion time, then
        reloads. A missing action fails before anything is written or reloaded. */
    method HandleActionStatusChange(actionId: int, newStatus: string, now: int, oneDayAgo: int)
        returns (r: Outcome<StoreError>)
      requires db.Valid()
      modifies this, db
      ensures db.Valid()
      ensures r.Pass? <==> actionId in old(db.actions.rows)
      ensures r.Pass? ==>
                db.actions == old(db.actions).Put(actionId,
                                                  StatusChange(old(db.actions.rows[actionId]), newStatus, now)) &&
                actions == Actionable(db.threads.Records(), db.actions.Records(), topicId, oneDayAgo)
      ensures r.Fail? ==> db.actions == old(db.actions) && actions == old(actions)
      ensures db.threads == old(db.threads) && db.threadUpdates == old(db.threadUpdates)
    {
      var action := db.actions.Get(actionId);
      if action.None? {
        return Fail(RecordNotFound);
      }
      var changed := StatusChange(action.value, newStatus, now);
      r := db.PutAction(changed);
      LoadActions(oneDayAgo);
    }
  }
}
