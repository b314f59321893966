/** The thread list: threads of the chosen topic, each with its latest update, ordered by
    most recent activity first. */
module ThreadAggregator {
  import opened Prelude
  import opened Records
  import opened Store
  import StableSort

  /** A listed thread: the record and its latest update, if it has any. */
  datatype ThreadView = ThreadView(thread: Thread, latestUpdate: Option<ThreadUpdate>)

  /** Topic filter 0 is "all topics": every thread; otherwise the threads of that topic. */
  function Selected(ts: seq<Thread>, topicId: int): (r: seq<Thread>)
    ensures forall t :: t in r <==> t in ts && (topicId == 0 || t.topicId == Some(topicId))
  {
    if topicId == 0 then ts else ThreadsOfTopic(ts, topicId)
  }

  /** `updates[0] || null` after sorting the thread's updates newest first. */
  function Latest(us: seq<ThreadUpdate>, threadId: int): Option<ThreadUpdate> {
    var s := NewestFirst(UpdatesOfThread(us, threadId));
    if s == [] then None else Some(s[0])
  }

  /** A thread has a latest update exactly when it has an update, and that update is the
      newest; among updates with the newest timestamp, it is the first in key order. (The
      least negated timestamp is the newest one.) */
  lemma LatestIsNewest(us: seq<ThreadUpdate>, threadId: int)
    ensures Latest(us, threadId).None? <==> forall u :: u in us ==> u.threadId != threadId
    ensures forall u :: Latest(us, threadId) == Some(u) <==>
              StableSort.FirstLeast(u, UpdatesOfThread(us, threadId), NegTimestamp)
  {
    var p := UpdatesOfThread(us, threadId);
    StableSort.SortPermutation(p, NegTimestamp);
    if p != [] {
      StableSort.SortHeadIsFirstLeast(p, NegTimestamp);
      assert p[0] in p;
    }
  }

  /** The latest update's timestamp is at least every timestamp of the thread's updates. */
  lemma LatestHasMaxTimestamp(us: seq<ThreadUpdate>, threadId: int)
    requires Latest(us, threadId).Some?
    ensures Latest(us, threadId).value in us && Latest(us, threadId).value.threadId == threadId
    ensures forall u :: u in us && u.threadId == threadId ==> u.timestamp <= Latest(us, threadId).value.timestamp
  {
    LatestIsNewest(us, threadId);
    var l := Latest(us, threadId).value;
    var p := UpdatesOfThread(us, threadId);
    assert StableSort.FirstLeast(l, p, NegTimestamp);
    forall u | u in us && u.threadId == threadId ensures u.timestamp <= l.timestamp {
      assert u in p;
    }
  }

  /** The `map` that attaches to each thread its latest update, thread by thread. */
  function Enrich(ts: seq<Thread>, us: seq<ThreadUpdate>): (r: seq<ThreadView>)
    ensures |r| == |ts| && forall i :: 0 <= i < |ts| ==> r[i] == ThreadView(ts[i], Latest(us, ts[i].id))
    decreases |ts|
  {
    if ts == [] then [] else Enrich(ts[..|ts| - 1], us) + [ThreadView(ts[|ts| - 1], Latest(us, ts[|ts| - 1].id))]
  }

  /** The time a listed thread was last active: its latest update's, else its creation. */
  function Effective(v: ThreadView): int {
    if v.latestUpdate.Some? then v.latestUpdate.value.timestamp else v.thread.createdAt
  }

  /** Sort key of the comparator `dateB - dateA`: most recent activity first. */
  function NegEffective(v: ThreadView): int {
    -Effective(v)
  }

  /** `loadThreads`' result. */
  function Listing(ts: seq<Thread>, us: seq<ThreadUpdate>, topicId: int): seq<ThreadView> {
    StableSort.SortBy(Enrich(Selected(ts, topicId), us), NegEffective)
  }

  /** The listing holds each selected thread with its latest update, and nothing else; it
      rearranges the enriched threads without loss. */
  lemma ListingContents(ts: seq<Thread>, us: seq<ThreadUpdate>, topicId: int)
    ensures multiset(Listing(ts, us, topicId)) == multiset(Enrich(Selected(ts, topicId), us))
    ensures forall v :: v in Listing(ts, us, topicId) <==>
              v.thread in ts && (topicId == 0 || v.thread.topicId == Some(topicId)) &&
              v.latestUpdate == Latest(us, v.thread.id)
  {
    var e := Enrich(Selected(ts, topicId), us);
    var sel := Selected(ts, topicId);
    StableSort.SortPermutation(e, NegEffective);
    forall v: ThreadView ensures v in Listing(ts, us, topicId) <==> v in e {
      assert v in Listing(ts, us, topicId) <==> v in multiset(Listing(ts, us, topicId));
    }
    forall v: ThreadView | v.thread in sel && v.latestUpdate == Latest(us, v.thread.id) ensures v in e {
      var i :| 0 <= i < |sel| && sel[i] == v.thread;
      assert e[i] == v;
    }
  }

  /** The listing runs from the most recent activity to the oldest. */
  lemma ListingNewestFirst(ts: seq<Thread>, us: seq<ThreadUpdate>, topicId: int)
    ensures forall i, j :: 0 <= i < j < |Listing(ts, us, topicId)| ==>
              Effective(Listing(ts, us, topicId)[i]) >= Effective(Listing(ts, us, topicId)[j])
  {
    var e := Enrich(Selected(ts, topicId), us);
    var l := Listing(ts, us, topicId);
    StableSort.SortSorted(e, NegEffective);
    forall i, j | 0 <= i < j < |l| ensures Effective(l[i]) >= Effective(l[j]) {
      assert NegEffective(l[i]) <= NegEffective(l[j]);
    }
  }

  /** Threads last active at the same time stay in their selection (key) order. */
  lemma ListingStable(ts: seq<Thread>, us: seq<ThreadUpdate>, topicId: int, time: int)
    ensures StableSort.KeyClass(Listing(ts, us, topicId), NegEffective, -time) ==
            StableSort.KeyClass(Enrich(Selected(ts, topicId), us), NegEffective, -time)
  {
    StableSort.SortStable(Enrich(Selected(ts, topicId), us), NegEffective, -time);
  }

  /** The store key of a listed thread. */
  function ViewKey(v: ThreadView): int { v.thread.id }

  /** Over the store, among a thread's updates with the newest timestamp the latest update
      has the least key. */
  lemma LatestFirstByKey(db: Database, threadId: int)
    requires db.Valid()
    ensures Latest(db.threadUpdates.Records(), threadId).Some? ==>
              forall u :: u in db.threadUpdates.Records() && u.threadId == threadId &&
                          u.timestamp == Latest(db.threadUpdates.Records(), threadId).value.timestamp
                          ==> Latest(db.threadUpdates.Records(), threadId).value.id <= u.id
  {
    var us := db.threadUpdates.Records();
    StoredKeyOrder(db);
    LatestIsNewest(us, threadId);
    if Latest(us, threadId).Some? {
      var l := Latest(us, threadId).value;
      StableSort.FirstLeastLeastRank(l, UpdatesOfThread(us, threadId), NegTimestamp, UpdateKey);
      forall u | u in us && u.threadId == threadId && u.timestamp == l.timestamp ensures l.id <= u.id {
        assert u in UpdatesOfThread(us, threadId) && NegTimestamp(u) == NegTimestamp(l);
      }
    }
  }

  /** Attaching updates keeps the threads' key order. */
  lemma EnrichKeepsKeyOrder(ts: seq<Thread>, us: seq<ThreadUpdate>)
    requires StableSort.Ascending(ts, ThreadKey)
    ensures StableSort.Ascending(Enrich(ts, us), ViewKey)
  {
    var e := Enrich(ts, us);
    forall i, j | 0 <= i < j < |e| ensures ViewKey(e[i]) < ViewKey(e[j]) {
      assert ViewKey(e[i]) == ThreadKey(ts[i]) && ViewKey(e[j]) == ThreadKey(ts[j]);
    }
  }

    /** Over the store, threads last active at the same time are listed in ascending key
      order. */
  lemma ListingTiesByKey(db: Database, topicId: int, time: int)
    requires db.Valid()
    ensures StableSort.Ascending(
              StableSort.KeyClass(Listing(db.threads.Records(), db.threadUpdates.Records(), topicId),
                                  NegEffective, -time),
              ViewKey)
  {
    var sel := Selected(db.threads.Records(), topicId);
    var e := Enrich(sel, db.threadUpdates.Records());
    StoredKeyOrder(db);
    EnrichKeepsKeyOrder(sel, db.threadUpdates.Records());
    ListingStable(db.threads.Records(), db.threadUpdates.Records(), topicId, time);
    StableSort.KeyClassAscending(e, NegEffective, -time, ViewKey);
  }

    /** `loadThreads`' query: select, attach each thread's newest update after sorting its
      updates in place, then sort the whole list in place. */
  method QueryThreads(db: Database, topicId: int) returns (listing: seq<ThreadView>)
    ensures listing == Listing(db.threads.Records(), db.threadUpdates.Records(), topicId)
  {
    var allThreads: seq<Thread>;
    if topicId == 0 {
      allThreads := db.threads.Records();
    } else {
      allThreads := ThreadsOfTopic(db.threads.Records(), topicId);
    }
    var us := db.threadUpdates.Records();
    var withUpdates: seq<ThreadView> := [];
    for i := 0 to |allThreads|
      invariant withUpdates == Enrich(allThreads[..i], us)
    {
      var thread := allThreads[i];
      var latest := LatestOf(us, thread.id);
      EnrichSnoc(allThreads, i, us);
      withUpdates := withUpdates + [ThreadView(thread, latest)];
    }
    assert allThreads[..|allThreads|] == allThreads;
    var b := new ThreadView[|withUpdates|](k requires 0 <= k < |withUpdates| => withUpdates[k]);
    assert b[..] == withUpdates;
    StableSort.SortInPlace(b, NegEffective);
    listing := b[..];
  }

  /** The `map` callback: the thread's updates from the index, sorted in place newest
      first, and the first of them. */
  method LatestOf(us: seq<ThreadUpdate>, threadId: int) returns (latest: Option<ThreadUpdate>)
    ensures latest == Latest(us, threadId)
  {
    var updates := UpdatesOfThread(us, threadId);
    var a := new ThreadUpdate[|updates|](k requires 0 <= k < |updates| => updates[k]);
    assert a[..] == updates;
    StableSort.SortInPlace(a, NegTimestamp);
    latest := if a.Length > 0 then Some(a[0]) else None;
  }

  lemma EnrichSnoc(ts: seq<Thread>, i: nat, us: seq<ThreadUpdate>)
    requires i < |ts|
    ensures Enrich(ts[..i + 1], us) == Enrich(ts[..i], us) + [ThreadView(ts[i], Latest(us, ts[i].id))]
  {
    assert ts[..i + 1][..i] == ts[..i];
  }

  /** `useThreads(db, topicId)`: the list it holds. */
  class ThreadsHook {
    const db: Database
    const topicId: int
    var threads: seq<ThreadView>

    constructor (db: Database, topicId: int)
      ensures this.db == db && this.topicId == topicId && threads == []
    {
      this.db := db;
      this.topicId := topicId;
      threads := [];
    }

    /** `loadThreads`: replaces the held list with the query's result. */
    method LoadThreads()
      modifies this
      ensures threads == Listing(db.threads.Records(), db.threadUpdates.Records(), topicId)
    {
      threads := QueryThreads(db, topicId);
    }
  }
}
