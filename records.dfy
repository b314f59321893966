/** The records of the four-collection store (topics are not part of this model) and the
    selections an exact-key index scan makes over them. */
module Records {
  import opened Prelude
  import StableSort

  /** A tracked unit of work. `state` is absent on threads that never had one; `topicId`
      is a weak reference to a topic. Timestamps are integers. */
  datatype Thread = Thread(id: int, title: string, state: Option<string>,
                           topicId: Option<int>, createdAt: int)

  /** An entry of a thread's update log. */
  datatype ThreadUpdate = ThreadUpdate(id: int, threadId: int, content: string, timestamp: int)

  /** An action item. `status` is a free label ("pending", "completed", "discarded",
      "delegated", "delayed", ...). A standalone action has no `threadId`; a thread-bound one
      is sequenced by `order`, which may also be missing. */
  datatype Action = Action(id: int, text: string, status: string,
                           threadId: Option<int>, topicId: Option<int>,
                           createdAt: int, completedAt: Option<int>, order: Option<int>)

  predicate IsPending(a: Action) {
    a.status == "pending"
  }

  /** `a.order || 0`: a missing order sorts as 0. */
  function OrderKey(a: Action): int {
    if a.order.Some? then a.order.value else 0
  }

  /** Sort key of the comparator `(a, b) => b.timestamp - a.timestamp`, i.e. newest first. */
  function NegTimestamp(u: ThreadUpdate): int {
    -u.timestamp
  }

  /** A thread's update list as the source sorts it: newest first, stable on equal times. */
  function NewestFirst(us: seq<ThreadUpdate>): seq<ThreadUpdate> {
    StableSort.SortBy(us, NegTimestamp)
  }

  /** NewestFirst rearranges the updates and never puts an older one before a newer one. */
  lemma NewestFirstOrder(us: seq<ThreadUpdate>)
    ensures multiset(NewestFirst(us)) == multiset(us)
    ensures forall i, j :: 0 <= i < j < |NewestFirst(us)| ==>
              NewestFirst(us)[i].timestamp >= NewestFirst(us)[j].timestamp
  {
    var s := NewestFirst(us);
    StableSort.SortPermutation(us, NegTimestamp);
    StableSort.SortSorted(us, NegTimestamp);
    forall i, j | 0 <= i < j < |s| ensures s[i].timestamp >= s[j].timestamp {
      assert NegTimestamp(s[i]) <= NegTimestamp(s[j]);
    }
  }

  /** Updates with the same timestamp keep the order they came in. */
  lemma NewestFirstStable(us: seq<ThreadUpdate>, t: int)
    ensures StableSort.KeyClass(NewestFirst(us), NegTimestamp, -t) ==
            StableSort.KeyClass(us, NegTimestamp, -t)
  {
    StableSort.SortStable(us, NegTimestamp, -t);
  }

  // The store keys, as ranks along a listing.
  function ActionKey(a: Action): int { a.id }
  function UpdateKey(u: ThreadUpdate): int { u.id }
  function ThreadKey(t: Thread): int { t.id }

  // Exact-key index scans. Each keeps the matching records in the order it is given them, so
  // a listing in ascending key order stays in ascending key order.

  /** The two indexes of `actions` the core queries at one key: `threadId` and `topicId`. */
  datatype ActionIndex = ByThread | ByTopic

  /** The value an action is filed under in index `ix`. */
  function Indexed(a: Action, ix: ActionIndex): Option<int> {
    match ix
    case ByThread => a.threadId
    case ByTopic => a.topicId
  }

  /** `index(ix).getAll(IDBKeyRange.only(key))` of `actions`. */
  function ActionsAt(s: seq<Action>, ix: ActionIndex, key: int): (r: seq<Action>)
    ensures forall a :: a in r <==> a in s && Indexed(a, ix) == Some(key)
    ensures StableSort.Ascending(s, ActionKey) ==> StableSort.Ascending(r, ActionKey)
    decreases |s|
  {
    if s == [] then []
    else
      StableSort.AscendingInit(s, ActionKey);
      ActionsAt(s[..|s| - 1], ix, key) +
      (if Indexed(s[|s| - 1], ix) == Some(key) then [s[|s| - 1]] else [])
  }

  /** The `threadId` index of `actions`. */
  function ActionsOfThread(s: seq<Action>, threadId: int): seq<Action> {
    ActionsAt(s, ByThread, threadId)
  }

  /** The `topicId` index of `actions`. */
  function ActionsOfTopic(s: seq<Action>, topicId: int): seq<Action> {
    ActionsAt(s, ByTopic, topicId)
  }

  /** The `status` index of `actions` at "pending", which is also `filter(status === "pending")`. */
  function PendingOnly(s: seq<Action>): (r: seq<Action>)
    ensures forall a :: a in r <==> a in s && IsPending(a)
    ensures StableSort.Ascending(s, ActionKey) ==> StableSort.Ascending(r, ActionKey)
    decreases |s|
  {
    if s == [] then []
    else
      StableSort.AscendingInit(s, ActionKey);
      PendingOnly(s[..|s| - 1]) + (if IsPending(s[|s| - 1]) then [s[|s| - 1]] else [])
  }

  /** The `topicId` index of `threads`. */
  function ThreadsOfTopic(s: seq<Thread>, topicId: int): (r: seq<Thread>)
    ensures forall t :: t in r <==> t in s && t.topicId == Some(topicId)
    ensures StableSort.Ascending(s, ThreadKey) ==> StableSort.Ascending(r, ThreadKey)
    decreases |s|
  {
    if s == [] then []
    else
      StableSort.AscendingInit(s, ThreadKey);
      ThreadsOfTopic(s[..|s| - 1], topicId) +
      (if s[|s| - 1].topicId == Some(topicId) then [s[|s| - 1]] else [])
  }

  /** The `threadId` index of `threadUpdates`. */
  function UpdatesOfThread(s: seq<ThreadUpdate>, threadId: int): (r: seq<ThreadUpdate>)
    ensures forall u :: u in r <==> u in s && u.threadId == threadId
    ensures StableSort.Ascending(s, UpdateKey) ==> StableSort.Ascending(r, UpdateKey)
    decreases |s|
  {
    if s == [] then []
    else
      StableSort.AscendingInit(s, UpdateKey);
      UpdatesOfThread(s[..|s| - 1], threadId) +
      (if s[|s| - 1].threadId == threadId then [s[|s| - 1]] else [])
  }
}
