/** Python's `list.sort(key=key, reverse=True)`: largest key first, with
    ties left in their original order (the sort is stable, also when
    reversed). `batch2TrainData` sorts a batch this way by the number of
    words of each query. */
module Sorting {
  /** Keys never increase from left to right. */
  predicate Descending<T>(key: T -> nat, s: seq<T>) {
    forall i, j :: 0 <= i < j < |s| ==> key(s[i]) >= key(s[j])
  }

  /** The elements of `s` whose key is `n`, in their order in `s`. */
  function WithKey<T>(key: T -> nat, s: seq<T>, n: nat): (r: seq<T>)
    ensures forall k :: 0 <= k < |r| ==> key(r[k]) == n
    decreases |s|
  {
    if |s| == 0 then []
    else (if key(s[0]) == n then [s[0]] else []) + WithKey(key, s[1..], n)
  }

  /** Selecting by key distributes over one more element at the end. */
  lemma {:induction false} WithKeySnoc<T>(key: T -> nat, s: seq<T>, x: T, n: nat)
    ensures WithKey(key, s + [x], n) == WithKey(key, s, n) + WithKey(key, [x], n)
    decreases |s|
  {
    if |s| > 0 {
      assert (s + [x])[0] == s[0];
      assert (s + [x])[1..] == s[1..] + [x];
      WithKeySnoc(key, s[1..], x, n);
    } else {
      assert s + [x] == [x];
    }
  }

  /** In a descending sequence that starts below `n`, nothing has key `n`. */
  lemma {:induction false} NoneAbove<T>(key: T -> nat, s: seq<T>, n: nat)
    requires Descending(key, s)
    requires |s| > 0 ==> key(s[0]) < n
    ensures WithKey(key, s, n) == []
    decreases |s|
  {
    if |s| > 0 {
      NoneAbove(key, s[1..], n);
    }
  }

  /** Puts `p` after every element whose key is at least its own. */
  function Insert<T>(key: T -> nat, p: T, s: seq<T>): (r: seq<T>)
    ensures |r| == |s| + 1
    ensures multiset(r) == multiset(s) + multiset{p}
    decreases |s|
  {
    if |s| == 0 then [p]
    else if key(s[0]) >= key(p) then
      assert s == [s[0]] + s[1..];
      [s[0]] + Insert(key, p, s[1..])
    else [p] + s
  }

  /** The first element after inserting is the old first or `p`. */
  lemma InsertHead<T>(key: T -> nat, p: T, s: seq<T>)
    ensures Insert(key, p, s)[0] == p || (|s| > 0 && Insert(key, p, s)[0] == s[0])
  {
  }

  /** Inserting into a descending sequence keeps it descending. */
  lemma {:induction false} InsertDescending<T>(key: T -> nat, p: T, s: seq<T>)
    requires Descending(key, s)
    ensures Descending(key, Insert(key, p, s))
    decreases |s|
  {
    if |s| > 0 && key(s[0]) >= key(p) {
      var rest := Insert(key, p, s[1..]);
      InsertDescending(key, p, s[1..]);
      InsertHead(key, p, s[1..]);
      var r := [s[0]] + rest;
      forall j | 0 < j < |r|
        ensures key(r[0]) >= key(r[j])
      {
        assert r[j] in multiset(rest);
        assert r[j] == p || r[j] in multiset(s[1..]);
        if r[j] != p {
          var k :| 0 <= k < |s[1..]| && s[1..][k] == r[j];
          assert s[k + 1] == r[j];
        }
      }
      forall i, j | 0 <= i < j < |r|
        ensures key(r[i]) >= key(r[j])
      {
        if i > 0 {
          assert r[i] == rest[i - 1] && r[j] == rest[j - 1];
        }
      }
    }
  }

  /** Inserting into a descending sequence adds `p` after the earlier elements
      with the same key. */
  lemma {:induction false} InsertStable<T>(key: T -> nat, p: T, s: seq<T>, n: nat)
    requires Descending(key, s)
    ensures WithKey(key, Insert(key, p, s), n) == WithKey(key, s, n) + WithKey(key, [p], n)
    decreases |s|
  {
    var r := Insert(key, p, s);
    assert [p][1..] == [];
    if |s| == 0 {
    } else if key(s[0]) >= key(p) {
      InsertStable(key, p, s[1..], n);
      assert r[0] == s[0] && r[1..] == Insert(key, p, s[1..]);
    } else {
      assert r[0] == p && r[1..] == s;
      if key(p) == n {
        NoneAbove(key, s, n);
      }
    }
  }

  /** `s.sort(key=key, reverse=True)`: the elements, largest key first,
      inserted one at a time in their original order. */
  function SortDesc<T>(key: T -> nat, s: seq<T>): (r: seq<T>)
    ensures multiset(r) == multiset(s)
    ensures Descending(key, r)
    decreases |s|
  {
    if |s| == 0 then []
    else
      var init, last := s[..|s| - 1], s[|s| - 1];
      assert s == init + [last];
      InsertDescending(key, last, SortDesc(key, init));
      Insert(key, last, SortDesc(key, init))
  }

  /** The sort is stable: elements with equal keys keep their relative order. */
  lemma {:induction false} SortStable<T>(key: T -> nat, s: seq<T>, n: nat)
    ensures WithKey(key, SortDesc(key, s), n) == WithKey(key, s, n)
    decreases |s|
  {
    if |s| > 0 {
      var init, last := s[..|s| - 1], s[|s| - 1];
      assert s == init + [last];
      SortStable(key, init, n);
      InsertStable(key, last, SortDesc(key, init), n);
      WithKeySnoc(key, init, last, n);
    }
  }

  /** A sequence already in order is left as it is. */
  lemma {:induction false} SortSorted<T>(key: T -> nat, s: seq<T>)
    requires Descending(key, s)
    ensures SortDesc(key, s) == s
    decreases |s|
  {
    if |s| > 0 {
      var init, last := s[..|s| - 1], s[|s| - 1];
      SortDescSnoc(key, s);
      DescendingPrefix(key, s, init);
      SortSorted(key, init);
      InsertLast(key, last, init);
      LastSplit(s);
    }
  }

  /** A non-empty sequence is its front followed by its last element. */
  lemma LastSplit<T>(s: seq<T>)
    requires |s| > 0
    ensures s[..|s| - 1] + [s[|s| - 1]] == s
  {
  }

  /** One unfolding of `SortDesc`: the last element is inserted into the
      sorted rest. */
  lemma SortDescSnoc<T>(key: T -> nat, s: seq<T>)
    requires |s| > 0
    ensures SortDesc(key, s) == Insert(key, s[|s| - 1], SortDesc(key, s[..|s| - 1]))
  {
  }

  /** Dropping the last element of a descending sequence leaves one that
      is still descending and no smaller than the dropped key. */
  lemma DescendingPrefix<T>(key: T -> nat, s: seq<T>, init: seq<T>)
    requires |s| > 0 && Descending(key, s) && init == s[..|s| - 1]
    ensures Descending(key, init)
    ensures forall k :: 0 <= k < |init| ==> key(init[k]) >= key(s[|s| - 1])
  {
    forall i, j | 0 <= i < j < |init|
      ensures key(init[i]) >= key(init[j])
    {
      assert init[i] == s[i] && init[j] == s[j];
    }
  }

  /** Inserting an element whose key is no larger than any already there appends it. */
  lemma {:induction false} InsertLast<T>(key: T -> nat, p: T, s: seq<T>)
    requires forall k :: 0 <= k < |s| ==> key(s[k]) >= key(p)
    ensures Insert(key, p, s) == s + [p]
    decreases |s|
  {
    if |s| > 0 {
      InsertLast(key, p, s[1..]);
      assert s == [s[0]] + s[1..];
    }
  }
}
