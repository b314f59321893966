/** The object stores the hooks read and write: each is a table of records under
    auto-incremented integer keys, and the database holds the three the core uses. */
module Store {
  import opened Prelude
  import opened Records
  import StableSort

  /** One object store with `keyPath: "id"` and `autoIncrement: true`. `rows` maps each key
      to its record; `next` is the key generator's current number, the key `add` hands out. */
  datatype Table<T> = Table(rows: map<int, T>, next: int) {
    /** Every key is one the key generator has passed: a generator starts at 1 and only grows. */
    predicate Bounded() {
      1 <= next && forall k :: k in rows ==> 1 <= k < next
    }

    /** The keys in ascending order. */
    function Keys(): seq<int> {
      KeysUpto(rows, next)
    }

    /** All records in ascending key order: what `getAll`, and `getAll` on an index at one
        exact key (before its own selection), deliver. */
    function Records(): seq<T> {
      Upto(rows, next)
    }

    /** `get(key)`: the record under `k`, or absent. */
    function Get(k: int): Option<T> {
      if k in rows then Some(rows[k]) else None
    }

    /** `put(value)` under key `k`: replaces or inserts, and moves the generator past an
        explicit key at or above it. */
    function Put(k: int, v: T): Table<T> {
      Table(rows[k := v], if k < next then next else k + 1)
    }

    /** `add(value)` of a record without a key: stores it under the generated key. */
    function Add(v: T): Table<T> {
      Table(rows[next := v], next + 1)
    }
  }

  function Upto<T>(rows: map<int, T>, n: int): seq<T>
    decreases n
  {
    if n <= 1 then []
    else Upto(rows, n - 1) + (if n - 1 in rows then [rows[n - 1]] else [])
  }

  function KeysUpto<T>(rows: map<int, T>, n: int): seq<int>
    decreases n
  {
    if n <= 1 then []
    else KeysUpto(rows, n - 1) + (if n - 1 in rows then [n - 1] else [])
  }

  /** Below `n`, the i-th record is the one under the i-th key. */
  lemma {:induction false} UptoPairs<T>(rows: map<int, T>, n: int)
    ensures |KeysUpto(rows, n)| == |Upto(rows, n)|
    ensures forall i :: 0 <= i < |Upto(rows, n)| ==>
              KeysUpto(rows, n)[i] in rows && Upto(rows, n)[i] == rows[KeysUpto(rows, n)[i]]
    decreases n
  {
    if n > 1 {
      UptoPairs(rows, n - 1);
    }
  }

  /** Below `n`, the keys ascend strictly, lie in [1, n) and include every key of `rows` there. */
  lemma {:induction false} KeysUptoAscending<T>(rows: map<int, T>, n: int)
    ensures forall i :: 0 <= i < |KeysUpto(rows, n)| ==> 1 <= KeysUpto(rows, n)[i] < n
    ensures forall i, j :: 0 <= i < j < |KeysUpto(rows, n)| ==> KeysUpto(rows, n)[i] < KeysUpto(rows, n)[j]
    ensures forall k :: k in rows && 1 <= k < n ==> k in KeysUpto(rows, n)
    decreases n
  {
    if n > 1 {
      KeysUptoAscending(rows, n - 1);
    }
  }

  /** Writing at or above `n` leaves the records below `n` as they were. */
  lemma {:induction false} UptoUnchanged<T>(rows: map<int, T>, k: int, v: T, n: int)
    requires n <= k
    ensures Upto(rows[k := v], n) == Upto(rows, n)
    ensures KeysUpto(rows[k := v], n) == KeysUpto(rows, n)
    decreases n
  {
    if n > 1 {
      UptoUnchanged(rows, k, v, n - 1);
    }
  }

  /** Replacing the value under a key keeps the key list. */
  lemma {:induction false} KeysUptoReplace<T>(rows: map<int, T>, k: int, v: T, n: int)
    requires k in rows
    ensures KeysUpto(rows[k := v], n) == KeysUpto(rows, n)
    decreases n
  {
    if n > 1 {
      KeysUptoReplace(rows, k, v, n - 1);
    }
  }

  /** `Records` lists the table's records exactly: in ascending key order, each once per key. */
  lemma RecordsByKey<T>(t: Table<T>)
    requires t.Bounded()
    ensures |t.Keys()| == |t.Records()|
    ensures forall i :: 0 <= i < |t.Records()| ==>
              t.Keys()[i] in t.rows && t.Records()[i] == t.rows[t.Keys()[i]]
    ensures forall i, j :: 0 <= i < j < |t.Keys()| ==> t.Keys()[i] < t.Keys()[j]
    ensures forall k :: k in t.rows <==> k in t.Keys()
  {
    UptoPairs(t.rows, t.next);
    KeysUptoAscending(t.rows, t.next);
  }

  /** A value is among the records exactly when some key holds it. */
  lemma RecordsComplete<T>(t: Table<T>)
    requires t.Bounded()
    ensures forall v :: v in t.Records() <==> exists k :: k in t.rows && t.rows[k] == v
  {
    RecordsByKey(t);
    forall k | k in t.rows
      ensures t.rows[k] in t.Records()
    {
      var i :| 0 <= i < |t.Keys()| && t.Keys()[i] == k;
      assert t.Records()[i] == t.rows[k];
    }
  }

  /** `add` appends its record at the end of the key order, under the key it returns, and
      keeps the table bounded. */
  lemma AddAppends<T>(t: Table<T>, v: T)
    requires t.Bounded()
    ensures t.Add(v).Bounded()
    ensures t.Add(v).Records() == t.Records() + [v]
    ensures t.Add(v).Keys() == t.Keys() + [t.next]
  {
    UptoUnchanged(t.rows, t.next, v, t.next);
  }

  /** `put` under an existing key changes that record and no other, and keeps every key. */
  lemma PutReplaces<T>(t: Table<T>, k: int, v: T)
    requires t.Bounded() && k in t.rows
    ensures t.Put(k, v).Bounded()
    ensures t.Put(k, v).Keys() == t.Keys()
    ensures |t.Put(k, v).Records()| == |t.Records()| == |t.Keys()|
    ensures forall i :: 0 <= i < |t.Records()| ==>
              t.Put(k, v).Records()[i] == if t.Keys()[i] == k then v else t.Records()[i]
  {
    var u := t.Put(k, v);
    KeysUptoReplace(t.rows, k, v, t.next);
    RecordsByKey(t);
    RecordsByKey(u);
  }

  /** In a table whose records carry their own key, `getAll` lists them by strictly
      ascending key. */
  lemma RecordsAscend<T>(t: Table<T>, id: T -> int)
    requires t.Bounded()
    requires forall k :: k in t.rows ==> id(t.rows[k]) == k
    ensures StableSort.Ascending(t.Records(), id)
  {
    RecordsByKey(t);
    forall i, j | 0 <= i < j < |t.Records()| ensures id(t.Records()[i]) < id(t.Records()[j]) {
      assert id(t.Records()[i]) == t.Keys()[i];
      assert id(t.Records()[j]) == t.Keys()[j];
    }
  }

    /** Why a store operation was refused: `put` with a key below 1, which no generated key
      can be, or an operation on an action the store does not hold. */
  datatype StoreError = InvalidKey | RecordNotFound

  /** The database the hooks share: the `threads`, `threadUpdates` and `actions` stores. */
  class Database {
    var threads: Table<Thread>
    var threadUpdates: Table<ThreadUpdate>
    var actions: Table<Action>

    /** Every table is bounded and every record carries its own key as `id`. */
    ghost predicate Valid()
      reads this
    {
      threads.Bounded() && threadUpdates.Bounded() && actions.Bounded() &&
      (forall k :: k in threads.rows ==> threads.rows[k].id == k) &&
      (forall k :: k in threadUpdates.rows ==> threadUpdates.rows[k].id == k) &&
      (forall k :: k in actions.rows ==> actions.rows[k].id == k)
    }

    /** A freshly created database: every store empty, every generator at 1. */
    constructor ()
      ensures Valid()
      ensures threads == Table(map[], 1) && threadUpdates == Table(map[], 1)
      ensures actions == Table(map[], 1)
    {
      threads := Table(map[], 1);
      threadUpdates := Table(map[], 1);
      actions := Table(map[], 1);
    }

    /** `add("threadUpdates", u)`. */
    method AddUpdate(u: ThreadUpdate) returns (id: int)
      requires Valid()
      modifies this
      ensures Valid()
      ensures id == old(threadUpdates.next) && threadUpdates == old(threadUpdates).Add(u.(id := id))
      ensures threads == old(threads) && actions == old(actions)
    {
      id := threadUpdates.next;
      threadUpdates := threadUpdates.Add(u.(id := id));
    }

    /** `add("actions", a)`. */
    method AddAction(a: Action) returns (id: int)
      requires Valid()
      modifies this
      ensures Valid()
      ensures id == old(actions.next) && actions == old(actions).Add(a.(id := id))
      ensures threads == old(threads) && threadUpdates == old(threadUpdates)
    {
      id := actions.next;
      actions := actions.Add(a.(id := id));
    }

    /** `put("threads", t)`: replaces or inserts under `t.id`; a key below 1 is refused. */
    method PutThread(t: Thread) returns (r: Outcome<StoreError>)
      requires Valid()
      modifies this
      ensures Valid()
      ensures r.Pass? <==> t.id >= 1
      ensures threads == if r.Pass? then old(threads).Put(t.id, t) else old(threads)
      ensures threadUpdates == old(threadUpdates) && actions == old(actions)
    {
      if t.id < 1 {
        return Fail(InvalidKey);
      }
      threads := threads.Put(t.id, t);
      r := Pass;
    }

    /** `put("actions", a)`: replaces or inserts under `a.id`; a key below 1 is refused. */
    method PutAction(a: Action) returns (r: Outcome<StoreError>)
      requires Valid()
      modifies this
      ensures Valid()
      ensures r.Pass? <==> a.id >= 1
      ensures actions == if r.Pass? then old(actions).Put(a.id, a) else old(actions)
      ensures threads == old(threads) && threadUpdates == old(threadUpdates)
    {
      if a.id < 1 {
        return Fail(InvalidKey);
      }
      actions := actions.Put(a.id, a);
      r := Pass;
    }
  }

  /** Every store of a valid database lists its records in strictly ascending key order:
      record ids ascend along `getAll`. */
  lemma StoredKeyOrder(db: Database)
    requires db.Valid()
    ensures StableSort.Ascending(db.threads.Records(), ThreadKey)
    ensures StableSort.Ascending(db.threadUpdates.Records(), UpdateKey)
    ensures StableSort.Ascending(db.actions.Records(), ActionKey)
  {
    RecordsAscend(db.threads, ThreadKey);
    RecordsAscend(db.threadUpdates, UpdateKey);
    RecordsAscend(db.actions, ActionKey);
  }
}
