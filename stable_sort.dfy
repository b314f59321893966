/** Stable sorting by an integer key.

    `Array.prototype.sort` with a comparator `(a, b) => key(a) - key(b)` is a stable
    ascending sort by `key` (required of every engine since ECMAScript 2019); a comparator
    `(a, b) => key(b) - key(a)` is the same sort by the negated key.  A stable sort has
    exactly one possible result (lemma SortUnique), so the insertion sort below stands
    for whatever algorithm the engine runs. */
module StableSort {

  /** Keys never decrease from left to right. */
  predicate Sorted<T>(s: seq<T>, key: T -> int) {
    forall i, j :: 0 <= i < j < |s| ==> key(s[i]) <= key(s[j])
  }

  /** Inserts `x` into `s` just after the last element whose key is at most key(x): every
      element of the trailing run whose keys exceed key(x) ends up after `x`. */
  function Insert<T>(s: seq<T>, x: T, key: T -> int): seq<T>
    decreases |s|
  {
    if s == [] || key(s[|s| - 1]) <= key(x) then s + [x]
    else Insert(s[..|s| - 1], x, key) + [s[|s| - 1]]
  }

  /** The stable ascending sort of `s` by `key`. */
  function SortBy<T>(s: seq<T>, key: T -> int): seq<T>
    decreases |s|
  {
    if s == [] then [] else Insert(SortBy(s[..|s| - 1], key), s[|s| - 1], key)
  }

  /** The elements of `s` whose key is `k`, in their order in `s`. */
  function KeyClass<T>(s: seq<T>, key: T -> int, k: int): seq<T>
    decreases |s|
  {
    if s == [] then []
    else KeyClass(s[..|s| - 1], key, k) + (if key(s[|s| - 1]) == k then [s[|s| - 1]] else [])
  }

  lemma {:induction false} KeyClassAppend<T>(a: seq<T>, b: seq<T>, key: T -> int, k: int)
    ensures KeyClass(a + b, key, k) == KeyClass(a, key, k) + KeyClass(b, key, k)
    decreases |b|
  {
    if b == [] {
      assert a + b == a;
    } else {
      var b' := b[..|b| - 1];
      assert (a + b)[..|a + b| - 1] == a + b';
      KeyClassAppend(a, b', key, k);
    }
  }

  /** Every element of a key class carries that key, and belongs to the sequence. */
  lemma {:induction false} KeyClassMembers<T>(s: seq<T>, key: T -> int, k: int)
    ensures forall x :: x in KeyClass(s, key, k) <==> x in s && key(x) == k
    decreases |s|
  {
    if s != [] {
      KeyClassMembers(s[..|s| - 1], key, k);
      assert s == s[..|s| - 1] + [s[|s| - 1]];
    }
  }

  /** The first element of a non-empty key class is the first element of `s` with that key. */
  lemma {:induction false} KeyClassHead<T>(s: seq<T>, key: T -> int, k: int)
    requires KeyClass(s, key, k) != []
    ensures exists i :: 0 <= i < |s| && s[i] == KeyClass(s, key, k)[0] && key(s[i]) == k &&
                        forall j :: 0 <= j < i ==> key(s[j]) != k
    decreases |s|
  {
    var s' := s[..|s| - 1];
    if KeyClass(s', key, k) == [] {
      KeyClassMembers(s', key, k);
      assert forall j :: 0 <= j < |s| - 1 ==> s[j] == s'[j];
      assert forall j :: 0 <= j < |s| - 1 ==> key(s[j]) != k by {
        forall j | 0 <= j < |s| - 1 ensures key(s[j]) != k {
          assert s'[j] in s';
        }
      }
    } else {
      KeyClassHead(s', key, k);
      var i :| 0 <= i < |s'| && s'[i] == KeyClass(s', key, k)[0] && key(s'[i]) == k &&
               forall j :: 0 <= j < i ==> key(s'[j]) != k;
      assert s[i] == s'[i];
      assert forall j :: 0 <= j < i ==> s[j] == s'[j];
    }
  }

  /** Where Insert puts its element: after s[..p], before s[p..]. */
  function InsertPos<T>(s: seq<T>, x: T, key: T -> int): (p: nat)
    ensures p <= |s|
    decreases |s|
  {
    if s == [] || key(s[|s| - 1]) <= key(x) then |s| else InsertPos(s[..|s| - 1], x, key)
  }

  lemma {:induction false} InsertSplit<T>(s: seq<T>, x: T, key: T -> int)
    ensures Insert(s, x, key) == s[..InsertPos(s, x, key)] + [x] + s[InsertPos(s, x, key)..]
    ensures forall i :: InsertPos(s, x, key) <= i < |s| ==> key(x) < key(s[i])
    ensures InsertPos(s, x, key) > 0 ==> key(s[InsertPos(s, x, key) - 1]) <= key(x)
    decreases |s|
  {
    if !(s == [] || key(s[|s| - 1]) <= key(x)) {
      var s' := s[..|s| - 1];
      InsertSplit(s', x, key);
      var p := InsertPos(s', x, key);
      assert s'[..p] == s[..p];
      assert s'[p..] + [s[|s| - 1]] == s[p..];
      assert forall i :: p <= i < |s'| ==> s'[i] == s[i];
    }
  }

  /** Where the inserted element lands, and the keys around that position. */
  lemma InsertBounds<T>(s: seq<T>, x: T, key: T -> int)
    ensures |Insert(s, x, key)| == |s| + 1 && InsertPos(s, x, key) <= |s|
    ensures forall i :: InsertPos(s, x, key) <= i < |s| ==> key(x) < key(s[i])
    ensures InsertPos(s, x, key) > 0 ==> key(s[InsertPos(s, x, key) - 1]) <= key(x)
  {
    InsertSplit(s, x, key);
  }

  /** One position of the insertion result. */
  lemma InsertIndex<T>(s: seq<T>, x: T, key: T -> int, m: nat)
    requires m <= |s|
    ensures |Insert(s, x, key)| == |s| + 1
    ensures Insert(s, x, key)[m] == if m < InsertPos(s, x, key) then s[m]
                                    else if m == InsertPos(s, x, key) then x else s[m - 1]
  {
    InsertSplit(s, x, key);
  }

  lemma InsertSorted<T>(s: seq<T>, x: T, key: T -> int)
    requires Sorted(s, key)
    ensures Sorted(Insert(s, x, key), key)
  {
    InsertBounds(s, x, key);
    var p := InsertPos(s, x, key);
    var r := Insert(s, x, key);
    forall i, j | 0 <= i < j < |r| ensures key(r[i]) <= key(r[j]) {
      InsertIndex(s, x, key, i);
      InsertIndex(s, x, key, j);
      if j == p {
        assert key(s[i]) <= key(s[p - 1]);
      }
    }
  }

  lemma {:induction false} InsertPermutation<T>(s: seq<T>, x: T, key: T -> int)
    ensures multiset(Insert(s, x, key)) == multiset(s) + multiset{x}
    decreases |s|
  {
    if !(s == [] || key(s[|s| - 1]) <= key(x)) {
      var s' := s[..|s| - 1];
      InsertPermutation(s', x, key);
      assert s == s' + [s[|s| - 1]];
    }
  }

  lemma KeyClassSnoc<T>(s: seq<T>, x: T, key: T -> int, k: int)
    ensures KeyClass(s + [x], key, k) == KeyClass(s, key, k) + (if key(x) == k then [x] else [])
  {
    assert (s + [x])[..|s|] == s;
  }

  lemma {:induction false} KeyClassEmpty<T>(s: seq<T>, key: T -> int, k: int)
    requires forall i :: 0 <= i < |s| ==> key(s[i]) != k
    ensures KeyClass(s, key, k) == []
    decreases |s|
  {
    if s != [] {
      KeyClassEmpty(s[..|s| - 1], key, k);
    }
  }

  lemma SuffixClassEmpty<T>(s: seq<T>, p: nat, x: T, key: T -> int)
    requires p <= |s|
    requires forall i :: p <= i < |s| ==> key(x) < key(s[i])
    ensures KeyClass(s[p..], key, key(x)) == []
  {
    var b := s[p..];
    forall i | 0 <= i < |b| ensures key(b[i]) != key(x) {
      assert b[i] == s[p + i];
    }
    KeyClassEmpty(b, key, key(x));
  }

  lemma ThreePartClass<T>(a: seq<T>, x: T, b: seq<T>, key: T -> int, k: int)
    ensures KeyClass(a + [x] + b, key, k) ==
            KeyClass(a, key, k) + (if key(x) == k then [x] else []) + KeyClass(b, key, k)
    ensures KeyClass(a + b, key, k) == KeyClass(a, key, k) + KeyClass(b, key, k)
  {
    KeyClassAppend(a + [x], b, key, k);
    KeyClassSnoc(a, x, key, k);
    KeyClassAppend(a, b, key, k);
  }

  lemma InsertKeyClass<T>(s: seq<T>, x: T, key: T -> int, k: int)
    ensures KeyClass(Insert(s, x, key), key, k) ==
            KeyClass(s, key, k) + (if key(x) == k then [x] else [])
  {
    InsertSplit(s, x, key);
    var p := InsertPos(s, x, key);
    var a, b := s[..p], s[p..];
    assert s == a + b;
    ThreePartClass(a, x, b, key, k);
    if key(x) == k {
      SuffixClassEmpty(s, p, x, key);
    }
  }

  /** SortBy orders by key. */
  lemma {:induction false} SortSorted<T>(s: seq<T>, key: T -> int)
    ensures Sorted(SortBy(s, key), key)
    decreases |s|
  {
    if s != [] {
      SortSorted(s[..|s| - 1], key);
      InsertSorted(SortBy(s[..|s| - 1], key), s[|s| - 1], key);
    }
  }

  /** SortBy only rearranges: the result is a permutation of the input. */
  lemma {:induction false} SortPermutation<T>(s: seq<T>, key: T -> int)
    ensures multiset(SortBy(s, key)) == multiset(s)
    ensures |SortBy(s, key)| == |s|
    decreases |s|
  {
    if s != [] {
      SortPermutation(s[..|s| - 1], key);
      InsertPermutation(SortBy(s[..|s| - 1], key), s[|s| - 1], key);
      assert s == s[..|s| - 1] + [s[|s| - 1]];
    }
    assert |multiset(SortBy(s, key))| == |multiset(s)|;
  }

  /** SortBy is stable: the elements sharing any one key keep their relative order. */
  lemma {:induction false} SortStable<T>(s: seq<T>, key: T -> int, k: int)
    ensures KeyClass(SortBy(s, key), key, k) == KeyClass(s, key, k)
    decreases |s|
  {
    if s != [] {
      SortStable(s[..|s| - 1], key, k);
      InsertKeyClass(SortBy(s[..|s| - 1], key), s[|s| - 1], key, k);
    }
  }

  /** The sorted, stable rearrangement is unique: any sequence that is sorted and keeps every
      key class of `s` in order equals SortBy(s, key). */
  lemma {:induction false} SortUnique<T>(s: seq<T>, t: seq<T>, key: T -> int)
    requires Sorted(t, key)
    requires forall k :: KeyClass(t, key, k) == KeyClass(s, key, k)
    ensures t == SortBy(s, key)
  {
    var u := SortBy(s, key);
    SortSorted(s, key);
    forall k ensures KeyClass(u, key, k) == KeyClass(t, key, k) {
      SortStable(s, key, k);
    }
    SortedClassesEqual(t, u, key);
  }

  /** For a non-empty sorted sequence, one key class taken off the end, and the others. */
  lemma DropLast<T>(t: seq<T>, key: T -> int, k: int)
    requires t != []
    ensures KeyClass(t, key, k) ==
            KeyClass(t[..|t| - 1], key, k) + (if key(t[|t| - 1]) == k then [t[|t| - 1]] else [])
  {
  }

  /** Sequences ending in the same element with a shared key class still share it without it. */
  lemma DropLastEqual<T>(t: seq<T>, u: seq<T>, key: T -> int, k: int)
    requires t != [] && u != [] && t[|t| - 1] == u[|u| - 1]
    requires KeyClass(t, key, k) == KeyClass(u, key, k)
    ensures KeyClass(t[..|t| - 1], key, k) == KeyClass(u[..|u| - 1], key, k)
  {
    var x := t[|t| - 1];
    var ct, cu := KeyClass(t[..|t| - 1], key, k), KeyClass(u[..|u| - 1], key, k);
    var tail := if key(x) == k then [x] else [];
    assert ct + tail == cu + tail;
    assert ct == (ct + tail)[..|ct|];
    assert cu == (cu + tail)[..|cu|];
  }

  /** Two sequences with the same key classes have the same elements. */
  lemma SharedMember<T>(t: seq<T>, u: seq<T>, key: T -> int, x: T)
    requires x in t
    requires KeyClass(t, key, key(x)) == KeyClass(u, key, key(x))
    ensures x in u
  {
    KeyClassMembers(t, key, key(x));
    KeyClassMembers(u, key, key(x));
  }

  lemma SortedLast<T>(t: seq<T>, key: T -> int, y: T)
    requires Sorted(t, key) && y in t
    ensures key(y) <= key(t[|t| - 1])
  {
    var i :| 0 <= i < |t| && t[i] == y;
  }

  lemma SortedPrefix<T>(t: seq<T>, key: T -> int)
    requires Sorted(t, key) && t != []
    ensures Sorted(t[..|t| - 1], key)
  {
    var t' := t[..|t| - 1];
    assert forall i :: 0 <= i < |t'| ==> t'[i] == t[i];
  }

  lemma {:induction false} SortedClassesEqual<T>(t: seq<T>, u: seq<T>, key: T -> int)
    requires Sorted(t, key) && Sorted(u, key)
    requires forall k :: KeyClass(t, key, k) == KeyClass(u, key, k)
    ensures t == u
    decreases |t| + |u|
  {
    if t != [] {
      SharedMember(t, u, key, t[|t| - 1]);
    }
    if u != [] {
      SharedMember(u, t, key, u[|u| - 1]);
    }
    if t != [] && u != [] {
      var t', x := t[..|t| - 1], t[|t| - 1];
      var u', y := u[..|u| - 1], u[|u| - 1];
      SortedLast(u, key, x);
      SortedLast(t, key, y);
      var m := key(x);
      var c := KeyClass(t, key, m);
      DropLast(t, key, m);
      DropLast(u, key, m);
      assert c[|c| - 1] == x && c[|c| - 1] == y;
      forall k ensures KeyClass(t', key, k) == KeyClass(u', key, k) {
        DropLastEqual(t, u, key, k);
      }
      SortedPrefix(t, key);
      SortedPrefix(u, key);
      SortedClassesEqual(t', u', key);
      assert t == t' + [x] && u == u' + [y];
    }
  }

  /** An element whose key is at least every key of the sequence goes at its end. */
  lemma InsertLast<T>(s: seq<T>, x: T, key: T -> int)
    requires forall y :: y in s ==> key(y) <= key(x)
    ensures Insert(s, x, key) == s + [x]
  {
    if s != [] {
      assert s[|s| - 1] in s;
    }
  }

  /** The head of a sorted sequence has the least key. */
  lemma SortHeadLeast<T>(s: seq<T>, key: T -> int)
    requires s != []
    ensures SortBy(s, key) != [] && SortBy(s, key)[0] in s
    ensures forall y :: y in s ==> key(SortBy(s, key)[0]) <= key(y)
  {
    var u := SortBy(s, key);
    SortPermutation(s, key);
    SortSorted(s, key);
    assert u[0] in multiset(u);
    forall y | y in s ensures key(u[0]) <= key(y) {
      assert y in multiset(u);
      var m :| 0 <= m < |u| && u[m] == y;
    }
  }

  /** The head of a sequence is the first element of its own key class. */
  lemma HeadOfClass<T>(u: seq<T>, key: T -> int)
    requires u != []
    ensures KeyClass(u, key, key(u[0])) != [] && KeyClass(u, key, key(u[0]))[0] == u[0]
  {
    var k, x, rest := key(u[0]), u[0], u[1..];
    assert u == [x] + rest;
    KeyClassAppend([x], rest, key, k);
    assert [x][..0] == [];
    assert KeyClass([x], key, k) == [x];
  }

  /** Among the elements with the least key, the head of the sorted sequence is the one that
      came first in the input. */
  lemma SortHead<T>(s: seq<T>, key: T -> int)
    requires s != []
    ensures SortBy(s, key) != [] && SortBy(s, key)[0] in s
    ensures forall y :: y in s ==> key(SortBy(s, key)[0]) <= key(y)
    ensures exists i :: 0 <= i < |s| && s[i] == SortBy(s, key)[0] &&
                        forall j :: 0 <= j < i ==> key(s[j]) > key(s[i])
  {
    SortHeadLeast(s, key);
    var u := SortBy(s, key);
    var k := key(u[0]);
    SortStable(s, key, k);
    HeadOfClass(u, key);
    KeyClassHead(s, key, k);
    var i :| 0 <= i < |s| && s[i] == KeyClass(s, key, k)[0] && key(s[i]) == k &&
             forall j :: 0 <= j < i ==> key(s[j]) != k;
    forall j | 0 <= j < i ensures key(s[j]) > key(s[i]) {
      assert s[j] in s;
    }
  }

  /** The reference definition of the head of a stable sort: `x` has the least key in `s`,
      and no element before it in `s` has that key. */
  ghost predicate FirstLeast<T>(x: T, s: seq<T>, key: T -> int) {
    exists i :: 0 <= i < |s| && s[i] == x &&
      (forall y :: y in s ==> key(x) <= key(y)) &&
      (forall j :: 0 <= j < i ==> key(s[j]) > key(x))
  }

  /** At most one element is first among the least. */
  lemma FirstLeastUnique<T>(x: T, y: T, s: seq<T>, key: T -> int)
    requires FirstLeast(x, s, key) && FirstLeast(y, s, key)
    ensures x == y
  {
    var i :| 0 <= i < |s| && s[i] == x &&
      (forall z :: z in s ==> key(x) <= key(z)) &&
      (forall j :: 0 <= j < i ==> key(s[j]) > key(x));
    var i' :| 0 <= i' < |s| && s[i'] == y &&
      (forall z :: z in s ==> key(y) <= key(z)) &&
      (forall j :: 0 <= j < i' ==> key(s[j]) > key(y));
    assert key(x) <= key(s[i']) && key(y) <= key(s[i]);
  }

  /** The head of the stable sort is exactly the element the reference definition picks. */
  lemma SortHeadIsFirstLeast<T>(s: seq<T>, key: T -> int)
    requires s != []
    ensures SortBy(s, key) != []
    ensures forall x :: SortBy(s, key)[0] == x <==> FirstLeast(x, s, key)
  {
    SortHead(s, key);
    var h := SortBy(s, key)[0];
    assert FirstLeast(h, s, key);
    forall x | FirstLeast(x, s, key) ensures x == h {
      FirstLeastUnique(x, h, s, key);
    }
  }

  /** An element whose key is below every key of the sequence goes at its front. */
  lemma {:induction false} InsertFront<T>(s: seq<T>, x: T, key: T -> int)
    requires forall y :: y in s ==> key(x) < key(y)
    ensures Insert(s, x, key) == [x] + s
    decreases |s|
  {
    if s != [] {
      var init, last := s[..|s| - 1], s[|s| - 1];
      assert last in s;
      assert forall y :: y in init ==> y in s;
      InsertFront(init, x, key);
      assert s == init + [last];
    }
  }

  /** The insertion loop stops where Insert places x: after the elements it did not pass. */
  lemma StopPosition<T>(sorted: seq<T>, x: T, key: T -> int, j: nat)
    requires j <= |sorted|
    requires forall m :: j <= m < |sorted| ==> key(x) < key(sorted[m])
    requires j > 0 ==> key(sorted[j - 1]) <= key(x)
    ensures j == InsertPos(sorted, x, key)
  {
    InsertSplit(sorted, x, key);
    var p := InsertPos(sorted, x, key);
    assert j > 0 ==> key(sorted[j - 1]) <= key(x);
    assert p > 0 ==> key(sorted[p - 1]) <= key(x);
  }

  /** A sequence that agrees position by position with the insertion result, followed by
      `rest`, is that result followed by `rest`. */
  lemma AssembleInsert<T>(r: seq<T>, sorted: seq<T>, x: T, rest: seq<T>, key: T -> int)
    requires |r| == |sorted| + 1 + |rest|
    requires forall m :: 0 <= m < InsertPos(sorted, x, key) ==> r[m] == sorted[m]
    requires InsertPos(sorted, x, key) <= |sorted| && r[InsertPos(sorted, x, key)] == x
    requires forall m :: InsertPos(sorted, x, key) < m <= |sorted| ==> r[m] == sorted[m - 1]
    requires forall m :: |sorted| < m < |r| ==> r[m] == rest[m - |sorted| - 1]
    ensures r == Insert(sorted, x, key) + rest
  {
    var t := Insert(sorted, x, key) + rest;
    InsertBounds(sorted, x, key);
    forall m | 0 <= m < |r| ensures r[m] == t[m] {
      if m <= |sorted| {
        InsertIndex(sorted, x, key, m);
      }
    }
  }

  /** One step of the in-place insertion sort: a[i] moves left past every element of the
      sorted prefix a[..i] whose key exceeds its own. */
  method InsertInPlace<T>(a: array<T>, i: nat, key: T -> int)
    requires i < a.Length
    modifies a
    ensures a[..] == Insert(old(a[..i]), old(a[i]), key) + old(a[i + 1..])
  {
    ghost var orig := a[..];
    ghost var sorted, rest := a[..i], a[i + 1..];
    var x := a[i];
    var j := i;
    while j > 0 && key(a[j - 1]) > key(x)
      invariant 0 <= j <= i
      invariant forall m :: 0 <= m < j ==> a[m] == sorted[m]
      invariant a[j] == x
      invariant forall m :: j < m <= i ==> a[m] == sorted[m - 1]
      invariant forall m :: i < m < a.Length ==> a[m] == orig[m]
      invariant forall m :: j <= m < i ==> key(x) < key(sorted[m])
    {
      a[j - 1], a[j] := x, a[j - 1];
      j := j - 1;
    }
    StopPosition(sorted, x, key, j);
    forall m | i < m < a.Length ensures a[..][m] == rest[m - i - 1] {
      assert rest[m - i - 1] == orig[m];
    }
    AssembleInsert(a[..], sorted, x, rest, key);
  }

  lemma SortSnoc<T>(s: seq<T>, i: nat, key: T -> int)
    requires i < |s|
    ensures SortBy(s[..i + 1], key) == Insert(SortBy(s[..i], key), s[i], key)
    ensures |SortBy(s[..i], key)| == i
  {
    assert s[..i + 1][..i] == s[..i];
    SortPermutation(s[..i], key);
  }

  lemma SplitAt<T>(prefix: seq<T>, rest: seq<T>)
    requires rest != []
    ensures (prefix + rest)[..|prefix|] == prefix
    ensures (prefix + rest)[|prefix|] == rest[0]
    ensures (prefix + rest)[|prefix| + 1..] == rest[1..]
  {
  }

  /** Sorts an array in place, stably, by `key`: the in-place `sort` of the source. */
  method SortInPlace<T>(a: array<T>, key: T -> int)
    modifies a
    ensures a[..] == SortBy(old(a[..]), key)
  {
    ghost var s := a[..];
    var i := 0;
    while i < a.Length
      invariant 0 <= i <= a.Length
      invariant a[..] == SortBy(s[..i], key) + s[i..]
    {
      SortSnoc(s, i, key);
      SplitAt(SortBy(s[..i], key), s[i..]);
      assert s[i..][1..] == s[i + 1..];
      InsertInPlace(a, i, key);
      i := i + 1;
    }
    assert s == s[..a.Length];
  }

  // ---------------------------------------------------------------------------------------
  // A second, strictly ascending rank (a record's store key) along a sequence

  /** `rank` strictly increases from left to right. */
  predicate Ascending<T>(s: seq<T>, rank: T -> int) {
    forall i, j :: 0 <= i < j < |s| ==> rank(s[i]) < rank(s[j])
  }

  /** Dropping the last element keeps an ascending rank, and leaves every rank below the
      last one. */
  lemma AscendingInit<T(!new)>(s: seq<T>, rank: T -> int)
    requires s != []
    ensures Ascending(s, rank) ==> Ascending(s[..|s| - 1], rank)
    ensures Ascending(s, rank) ==> forall y :: y in s[..|s| - 1] ==> rank(y) < rank(s[|s| - 1])
  {
    if Ascending(s, rank) {
      forall y | y in s[..|s| - 1] ensures rank(y) < rank(s[|s| - 1]) {
        var i :| 0 <= i < |s| - 1 && s[..|s| - 1][i] == y;
        assert s[i] == y;
      }
    }
  }

  /** A key class is a selection, so it keeps a rank that ascends along the sequence. */
  lemma {:induction false} KeyClassAscending<T(!new)>(s: seq<T>, key: T -> int, k: int, rank: T -> int)
    requires Ascending(s, rank)
    ensures Ascending(KeyClass(s, key, k), rank)
    decreases |s|
  {
    if s != [] {
      var init := s[..|s| - 1];
      assert Ascending(init, rank);
      KeyClassAscending(init, key, k, rank);
      KeyClassMembers(init, key, k);
      forall y | y in KeyClass(init, key, k) ensures rank(y) < rank(s[|s| - 1]) {
        var i :| 0 <= i < |init| && init[i] == y;
        assert s[i] == y;
      }
    }
  }

  /** Along an ascending rank, the first element of least key has the least rank among the
      elements that share its key. */
  lemma FirstLeastLeastRank<T>(x: T, s: seq<T>, key: T -> int, rank: T -> int)
    requires FirstLeast(x, s, key) && Ascending(s, rank)
    ensures forall y :: y in s && key(y) == key(x) ==> rank(x) <= rank(y)
  {
    var i :| 0 <= i < |s| && s[i] == x &&
      (forall z :: z in s ==> key(x) <= key(z)) &&
      (forall j :: 0 <= j < i ==> key(s[j]) > key(x));
    forall y | y in s && key(y) == key(x) ensures rank(x) <= rank(y) {
      var j :| 0 <= j < |s| && s[j] == y;
      assert !(j < i);
    }
  }
}
