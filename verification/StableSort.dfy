/** A stable sort by an integer key, as a recursive function: the meaning of Rust's
    `sort_by`, used by the B-tree node, the routing lookups and the bset merge. */
module StableSort {

  function Insert<T>(x: T, s: seq<T>, key: T -> int): (r: seq<T>)
    ensures |r| == |s| + 1
  {
    if s == [] || key(x) <= key(s[0]) then [x] + s else [s[0]] + Insert(x, s[1..], key)
  }

  function Sort<T>(s: seq<T>, key: T -> int): (r: seq<T>)
    ensures |r| == |s|
  {
    if s == [] then [] else Insert(s[0], Sort(s[1..], key), key)
  }

  ghost predicate Sorted<T>(s: seq<T>, key: T -> int) {
    forall i, j :: 0 <= i < j < |s| ==> key(s[i]) <= key(s[j])
  }

  /** The elements of s whose key is k, in their order in s. */
  ghost function Only<T>(s: seq<T>, key: T -> int, k: int): seq<T> {
    if s == [] then [] else (if key(s[0]) == k then [s[0]] else []) + Only(s[1..], key, k)
  }

  lemma {:induction false} InsertPermutes<T>(x: T, s: seq<T>, key: T -> int)
    ensures multiset(Insert(x, s, key)) == multiset([x] + s)
  {
    if s != [] && key(x) > key(s[0]) {
      InsertPermutes(x, s[1..], key);
      assert s == [s[0]] + s[1..];
    }
  }

  lemma {:induction false} InsertSorted<T>(x: T, s: seq<T>, key: T -> int)
    requires Sorted(s, key)
    ensures Sorted(Insert(x, s, key), key)
  {
    if s != [] && key(x) > key(s[0]) {
      var t := Insert(x, s[1..], key);
      InsertSorted(x, s[1..], key);
      InsertPermutes(x, s[1..], key);
      forall j | 0 <= j < |t| ensures key(s[0]) <= key(t[j]) {
        assert t[j] in multiset(t);
        if t[j] != x {
          var q :| 0 <= q < |s[1..]| && s[1..][q] == t[j];
          assert s[1..][q] == s[q + 1];
        }
      }
    }
  }

  lemma {:induction false} InsertOnly<T>(x: T, s: seq<T>, key: T -> int, k: int)
    ensures Only(Insert(x, s, key), key, k) == Only([x] + s, key, k)
  {
    assert ([x] + s)[1..] == s;
    if s == [] || key(x) <= key(s[0]) {
    } else {
      InsertOnly(x, s[1..], key, k);
      assert ([x] + s[1..])[1..] == s[1..];
      var t := Insert(x, s[1..], key);
      assert ([s[0]] + t)[1..] == t;
    }
  }

  /** Sorting yields a sorted permutation and keeps equal keys in their order. */
  lemma {:induction false} SortIsStable<T>(s: seq<T>, key: T -> int)
    ensures Sorted(Sort(s, key), key)
    ensures multiset(Sort(s, key)) == multiset(s)
    ensures forall k :: Only(Sort(s, key), key, k) == Only(s, key, k)
  {
    if s != [] {
      SortIsStable(s[1..], key);
      InsertSorted(s[0], Sort(s[1..], key), key);
      InsertPermutes(s[0], Sort(s[1..], key), key);
      assert s == [s[0]] + s[1..];
      forall k ensures Only(Sort(s, key), key, k) == Only(s, key, k) {
        InsertOnly(s[0], Sort(s[1..], key), key, k);
        assert ([s[0]] + Sort(s[1..], key))[1..] == Sort(s[1..], key);
      }
    }
  }

  /** A sorted permutation that keeps equal keys in order is unique, so this is the sort. */
  lemma {:induction false} StableSortIsUnique<T>(a: seq<T>, b: seq<T>, key: T -> int)
    requires |a| == |b| && Sorted(a, key) && Sorted(b, key)
    requires forall k :: Only(a, key, k) == Only(b, key, k)
    ensures a == b
  {
    if a != [] {
      var k := key(a[0]);
      assert Only(b, key, k) != [];
      OnlyNonempty(b, key, k);
      OnlyNonempty(a, key, key(b[0]));
      assert key(b[0]) == k;
      assert Only(a, key, k)[0] == a[0] && Only(b, key, k)[0] == b[0];
      forall q ensures Only(a[1..], key, q) == Only(b[1..], key, q) {
        assert Only(a, key, q) == Only(b, key, q);
        if q == k {
          assert Only(a, key, q)[1..] == Only(a[1..], key, q);
          assert Only(b, key, q)[1..] == Only(b[1..], key, q);
        } else {
          assert Only(a, key, q) == Only(a[1..], key, q);
          assert Only(b, key, q) == Only(b[1..], key, q);
        }
      }
      StableSortIsUnique(a[1..], b[1..], key);
      assert a == [a[0]] + a[1..] && b == [b[0]] + b[1..];
    }
  }

  lemma {:induction false} OnlyNonempty<T>(s: seq<T>, key: T -> int, k: int)
    requires Only(s, key, k) != []
    ensures exists i :: 0 <= i < |s| && key(s[i]) == k
  {
    if key(s[0]) != k {
      OnlyNonempty(s[1..], key, k);
      var i :| 0 <= i < |s[1..]| && key(s[1..][i]) == k;
      assert key(s[i + 1]) == k;
    } else {
      assert key(s[0]) == k;
    }
  }

  ghost predicate DistinctKeys<T>(s: seq<T>, key: T -> int) {
    forall i, j :: 0 <= i < j < |s| ==> key(s[i]) != key(s[j])
  }

  ghost predicate StrictlySorted<T>(s: seq<T>, key: T -> int) {
    forall i, j :: 0 <= i < j < |s| ==> key(s[i]) < key(s[j])
  }

  /** Distinct keys come out strictly increasing. */
  lemma {:induction false} SortDistinct<T>(s: seq<T>, key: T -> int)
    requires DistinctKeys(s, key)
    ensures StrictlySorted(Sort(s, key), key)
  {
    if s != [] {
      SortDistinct(s[1..], key);
      SortIsStable(s[1..], key);
      var t := Sort(s[1..], key);
      forall j | 0 <= j < |t| ensures key(t[j]) != key(s[0]) {
        assert t[j] in multiset(t);
        var i :| 0 <= i < |s[1..]| && s[1..][i] == t[j];
        assert s[i + 1] == t[j];
      }
      InsertStrict(s[0], t, key);
    }
  }

  lemma {:induction false} InsertStrict<T>(x: T, s: seq<T>, key: T -> int)
    requires StrictlySorted(s, key)
    requires forall j :: 0 <= j < |s| ==> key(s[j]) != key(x)
    ensures StrictlySorted(Insert(x, s, key), key)
  {
    if s != [] && key(x) > key(s[0]) {
      InsertStrict(x, s[1..], key);
      var t := Insert(x, s[1..], key);
      InsertPermutes(x, s[1..], key);
      forall j | 0 <= j < |t| ensures key(s[0]) < key(t[j]) {
        assert t[j] in multiset(t);
        assert t[j] in [x] + s[1..];
      }
    }
  }

  /** Sorting neither adds nor drops elements. */
  lemma SortMembers<T>(s: seq<T>, key: T -> int)
    ensures forall x :: x in Sort(s, key) <==> x in s
  {
    SortIsStable(s, key);
    forall x ensures x in Sort(s, key) <==> x in s {
      assert x in multiset(Sort(s, key)) <==> x in multiset(s);
    }
  }
}
