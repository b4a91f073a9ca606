/**
 Python's `sorted(xs, key=f)`, which both selection functions of the sensor
 run first: a stable sort by an integer key. It is modelled as an insertion
 sort and characterised by three lemmas: the result is ordered by the key,
 it is a permutation of the input, and the events that share a key keep
 their input order (stability). Beside it, `First`, the first element of a
 sequence that satisfies a test, which is what a scan that stops at the
 first match returns.
 */
module StableSort {
  import opened TideInfo

  ghost predicate SortedBy<T>(s: seq<T>, key: T -> int)
  {
    forall i, j :: 0 <= i < j < |s| ==> key(s[i]) <= key(s[j])
  }

  /** The subsequence of the elements whose key is `k`, in their order in `s`. */
  function WithKey<T>(s: seq<T>, key: T -> int, k: int): (r: seq<T>)
    ensures forall e :: e in r ==> e in s && key(e) == k
  {
    if s == [] then []
    else (if key(s[0]) == k then [s[0]] else []) + WithKey(s[1..], key, k)
  }

  /** Puts `x` in front of the first element whose key is not smaller than
      its own, so that it precedes every element of equal key. */
  function Insert<T>(x: T, s: seq<T>, key: T -> int): (r: seq<T>)
    ensures |r| == |s| + 1
  {
    if s == [] || key(x) <= key(s[0]) then [x] + s
    else [s[0]] + Insert(x, s[1..], key)
  }

  function SortBy<T>(s: seq<T>, key: T -> int): (r: seq<T>)
    ensures |r| == |s|
  {
    if s == [] then [] else Insert(s[0], SortBy(s[1..], key), key)
  }

  /** The first element of `s` that passes `p`, or None when none does.
      `FirstIsEarliest` shows that no earlier element passes. */
  function First<T>(s: seq<T>, p: T -> bool): (r: Option<T>)
    ensures r.Some? ==> r.value in s && p(r.value)
    ensures r.None? <==> forall e :: e in s ==> !p(e)
  {
    if s == [] then None
    else if p(s[0]) then Some(s[0])
    else First(s[1..], p)
  }

  /** A match of `First` sits at an index before which no element passes. */
  lemma {:induction false} FirstIsEarliest<T>(s: seq<T>, p: T -> bool)
    ensures First(s, p).Some? ==>
      exists i :: 0 <= i < |s| && s[i] == First(s, p).value && forall j :: 0 <= j < i ==> !p(s[j])
  {
    if s != [] && !p(s[0]) {
      FirstIsEarliest(s[1..], p);
      if First(s, p).Some? {
        var i :| 0 <= i < |s[1..]| && s[1..][i] == First(s, p).value && forall j :: 0 <= j < i ==> !p(s[1..][j]);
        assert s[i + 1] == First(s, p).value;
        forall j | 0 <= j < i + 1
          ensures !p(s[j])
        {
          if j > 0 {
            assert s[j] == s[1..][j - 1];
          }
        }
      }
    } else if s != [] {
      assert s[0] == First(s, p).value;
    }
  }

  lemma {:induction false} InsertPermutes<T>(x: T, s: seq<T>, key: T -> int)
    ensures multiset(Insert(x, s, key)) == multiset(s) + multiset{x}
  {
    if s == [] || key(x) <= key(s[0]) {
    } else {
      InsertPermutes(x, s[1..], key);
      assert s == [s[0]] + s[1..];
    }
  }

  lemma {:induction false} InsertMembers<T>(x: T, s: seq<T>, key: T -> int, e: T)
    requires e in Insert(x, s, key)
    ensures e == x || e in s
  {
    if s != [] && key(s[0]) < key(x) {
      if e != s[0] {
        InsertMembers(x, s[1..], key, e);
      }
    }
  }

  lemma {:induction false} InsertSorted<T>(x: T, s: seq<T>, key: T -> int)
    requires SortedBy(s, key)
    ensures SortedBy(Insert(x, s, key), key)
  {
    if s != [] && key(s[0]) < key(x) {
      var rest := Insert(x, s[1..], key);
      assert SortedBy(s[1..], key) by {
        forall i, j | 0 <= i < j < |s[1..]|
          ensures key(s[1..][i]) <= key(s[1..][j])
        {
          assert s[1..][i] == s[i + 1] && s[1..][j] == s[j + 1];
        }
      }
      InsertSorted(x, s[1..], key);
      var r := [s[0]] + rest;
      forall i, j | 0 <= i < j < |r|
        ensures key(r[i]) <= key(r[j])
      {
        if i > 0 {
          assert r[i] == rest[i - 1] && r[j] == rest[j - 1];
        } else {
          assert r[j] == rest[j - 1];
          InsertMembers(x, s[1..], key, r[j]);
          if r[j] != x {
            var m :| 0 <= m < |s[1..]| && s[1..][m] == r[j];
            assert s[m + 1] == r[j];
          }
        }
      }
    }
  }

  lemma WithKeyCons<T>(x: T, s: seq<T>, key: T -> int, k: int)
    ensures WithKey([x] + s, key, k) == (if key(x) == k then [x] else []) + WithKey(s, key, k)
  {
  }

  /** Inserting `x` adds it at the head of its own key class. */
  lemma {:induction false} InsertWithKey<T>(x: T, s: seq<T>, key: T -> int, k: int)
    ensures WithKey(Insert(x, s, key), key, k) == (if key(x) == k then [x] else []) + WithKey(s, key, k)
  {
    if s == [] || key(x) <= key(s[0]) {
      WithKeyCons(x, s, key, k);
    } else {
      InsertWithKey(x, s[1..], key, k);
      WithKeyCons(s[0], Insert(x, s[1..], key), key, k);
      WithKeyCons(s[0], s[1..], key, k);
      assert s == [s[0]] + s[1..];
    }
  }

  /** The sort returns the input's elements, each as often as it occurs. */
  lemma {:induction false} SortByPermutes<T>(s: seq<T>, key: T -> int)
    ensures multiset(SortBy(s, key)) == multiset(s)
  {
    if s != [] {
      SortByPermutes(s[1..], key);
      InsertPermutes(s[0], SortBy(s[1..], key), key);
      assert s == [s[0]] + s[1..];
    }
  }

  /** The sort orders by the key. */
  lemma {:induction false} SortBySorted<T>(s: seq<T>, key: T -> int)
    ensures SortedBy(SortBy(s, key), key)
  {
    if s != [] {
      SortBySorted(s[1..], key);
      InsertSorted(s[0], SortBy(s[1..], key), key);
    }
  }

  /** The sort is stable: the elements of each key come out in input order. */
  lemma {:induction false} SortByStable<T>(s: seq<T>, key: T -> int, k: int)
    ensures WithKey(SortBy(s, key), key, k) == WithKey(s, key, k)
  {
    if s != [] {
      SortByStable(s[1..], key, k);
      InsertWithKey(s[0], SortBy(s[1..], key), key, k);
    }
  }

  /** The first match of `p` in the result of `SortBy` has the smallest key
      among all elements that pass `p`. */
  lemma {:induction false} FirstOfSortedIsMinimal<T>(s: seq<T>, key: T -> int, p: T -> bool)
    requires SortedBy(s, key)
    requires First(s, p).Some?
    ensures forall e :: e in s && p(e) ==> key(First(s, p).value) <= key(e)
  {
    if !p(s[0]) {
      assert SortedBy(s[1..], key) by {
        forall i, j | 0 <= i < j < |s[1..]|
          ensures key(s[1..][i]) <= key(s[1..][j])
        {
          assert s[1..][i] == s[i + 1] && s[1..][j] == s[j + 1];
        }
      }
      FirstOfSortedIsMinimal(s[1..], key, p);
      forall e | e in s && p(e)
        ensures e in s[1..]
      {
        assert s == [s[0]] + s[1..];
      }
    } else {
      forall e | e in s && p(e)
        ensures key(s[0]) <= key(e)
      {
        var j :| 0 <= j < |s| && s[j] == e;
        assert j == 0 || key(s[0]) <= key(s[j]);
      }
    }
  }

  /** Restricting the first match to a stricter test `q` that the match also
      passes finds the same element. */
  lemma {:induction false} FirstNarrowed<T>(s: seq<T>, p: T -> bool, q: T -> bool)
    requires First(s, p).Some? && q(First(s, p).value)
    requires forall e :: q(e) ==> p(e)
    ensures First(s, q) == First(s, p)
  {
    if !p(s[0]) {
      FirstNarrowed(s[1..], p, q);
    }
  }

  /** Searching the elements of key `k` for `p` is searching everything for
      `q`, the conjunction of "key is `k`" and `p`. */
  lemma {:induction false} FirstWithKey<T>(s: seq<T>, key: T -> int, k: int, p: T -> bool, q: T -> bool)
    requires forall e :: q(e) == (key(e) == k && p(e))
    ensures First(WithKey(s, key, k), p) == First(s, q)
  {
    if s != [] {
      FirstWithKey(s[1..], key, k, p, q);
      var w := WithKey(s[1..], key, k);
      if key(s[0]) == k {
        calc {
          First(WithKey(s, key, k), p);
          First([s[0]] + w, p);
          { assert ([s[0]] + w)[0] == s[0] && ([s[0]] + w)[1..] == w; }
          if p(s[0]) then Some(s[0]) else First(w, p);
        }
      } else {
        assert WithKey(s, key, k) == w;
        assert !q(s[0]);
      }
    }
  }

  /** Scanning `s` and then one more element. */
  lemma {:induction false} FirstSnoc<T>(s: seq<T>, x: T, p: T -> bool)
    ensures First(s + [x], p) == if First(s, p).Some? then First(s, p) else if p(x) then Some(x) else None
  {
    if s == [] {
      assert s + [x] == [x];
    } else {
      FirstSnoc(s[1..], x, p);
      assert (s + [x])[0] == s[0] && (s + [x])[1..] == s[1..] + [x];
    }
  }
}
