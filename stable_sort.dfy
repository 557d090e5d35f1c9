/** Python's `list.sort(key=...)`: a stable sort by a key. The model sorts by
    insertion; SortedUnique shows that any stable sort by the same key gives
    the same list, so the choice of algorithm does not matter. */
module StableSort {

  /** A sort key compared like the Python tuple `(major, minor)`. */
  datatype Key = Key(major: int, minor: int)

  predicate KeyLe(a: Key, b: Key) {
    a.major < b.major || (a.major == b.major && a.minor <= b.minor)
  }

  /** Keys never decrease from left to right. */
  predicate Sorted<T>(s: seq<T>, key: T -> Key) {
    forall i, j :: 0 <= i < j < |s| ==> KeyLe(key(s[i]), key(s[j]))
  }

  /** The elements of `s` whose key is `k`, in their order in `s`. */
  function WithKey<T>(s: seq<T>, key: T -> Key, k: Key): seq<T> {
    if s == [] then [] else (if key(s[0]) == k then [s[0]] else []) + WithKey(s[1..], key, k)
  }

  /** Puts `x` in front of the first element whose key is not below its own. */
  function Insert<T>(x: T, s: seq<T>, key: T -> Key): (r: seq<T>)
    ensures |r| == |s| + 1
    ensures multiset(r) == multiset(s) + multiset{x}
  {
    if s == [] then [x]
    else if KeyLe(key(x), key(s[0])) then [x] + s
    else
      assert s == [s[0]] + s[1..];
      [s[0]] + Insert(x, s[1..], key)
  }

  /** The sorted copy: a permutation of the input. */
  function SortByKey<T>(s: seq<T>, key: T -> Key): (r: seq<T>)
    ensures |r| == |s|
    ensures multiset(r) == multiset(s)
  {
    if s == [] then []
    else
      assert s == [s[0]] + s[1..];
      Insert(s[0], SortByKey(s[1..], key), key)
  }

  /** Sorting neither adds nor drops an element. */
  lemma SortByKeyMembers<T>(s: seq<T>, key: T -> Key)
    ensures forall x :: x in SortByKey(s, key) <==> x in s
  {
    var r := SortByKey(s, key);
    forall x ensures x in r <==> x in s {
      assert x in r <==> x in multiset(r);
      assert x in s <==> x in multiset(s);
    }
  }

  lemma {:induction false} InsertSorted<T>(x: T, s: seq<T>, key: T -> Key)
    requires Sorted(s, key)
    ensures Sorted(Insert(x, s, key), key)
  {
    if s != [] && !KeyLe(key(x), key(s[0])) {
      InsertSorted(x, s[1..], key);
      var r := Insert(x, s[1..], key);
      assert forall j :: 0 <= j < |r| ==> r[j] == x || r[j] in s[1..] by {
        assert multiset(r) == multiset(s[1..]) + multiset{x};
        forall j | 0 <= j < |r| ensures r[j] == x || r[j] in s[1..] {
          assert r[j] in multiset(r);
        }
      }
      forall j | 0 <= j < |r| ensures KeyLe(key(s[0]), key(r[j])) {
        if r[j] != x {
          var m :| 0 <= m < |s[1..]| && s[1..][m] == r[j];
          assert s[m + 1] == r[j];
        }
      }
    }
  }

  lemma {:induction false} InsertWithKey<T>(x: T, s: seq<T>, key: T -> Key, k: Key)
    ensures WithKey(Insert(x, s, key), key, k) == (if key(x) == k then [x] else []) + WithKey(s, key, k)
  {
    var xs := if key(x) == k then [x] else [];
    if s == [] {
      assert WithKey([x], key, k) == xs + WithKey([x][1..], key, k);
    } else {
      var r := Insert(x, s, key);
      var s0 := if key(s[0]) == k then [s[0]] else [];
      assert WithKey(s, key, k) == s0 + WithKey(s[1..], key, k);
      if KeyLe(key(x), key(s[0])) {
        assert r == [x] + s && r[1..] == s;
        assert WithKey(r, key, k) == xs + WithKey(r[1..], key, k);
      } else {
        var t := Insert(x, s[1..], key);
        assert r == [s[0]] + t && r[1..] == t;
        assert WithKey(r, key, k) == s0 + WithKey(t, key, k);
        InsertWithKey(x, s[1..], key, k);
        if key(x) == k {
          assert s0 == [] && WithKey(r, key, k) == WithKey(t, key, k);
          assert WithKey(s, key, k) == WithKey(s[1..], key, k);
        } else {
          assert xs == [] && WithKey(t, key, k) == WithKey(s[1..], key, k);
        }
      }
    }
  }

  /** The result is ordered by the key. */
  lemma {:induction false} SortByKeySorted<T>(s: seq<T>, key: T -> Key)
    ensures Sorted(SortByKey(s, key), key)
  {
    if s != [] {
      SortByKeySorted(s[1..], key);
      InsertSorted(s[0], SortByKey(s[1..], key), key);
    }
  }

  /** Stability: the elements that share a key keep their input order. */
  lemma {:induction false} SortByKeyStable<T>(s: seq<T>, key: T -> Key, k: Key)
    ensures WithKey(SortByKey(s, key), key, k) == WithKey(s, key, k)
  {
    if s != [] {
      SortByKeyStable(s[1..], key, k);
      InsertWithKey(s[0], SortByKey(s[1..], key), key, k);
    }
  }

  lemma {:induction false} WithKeyMember<T>(s: seq<T>, key: T -> Key, k: Key) returns (j: nat)
    requires WithKey(s, key, k) != []
    ensures j < |s| && key(s[j]) == k
  {
    if key(s[0]) == k {
      j := 0;
    } else {
      var i := WithKeyMember(s[1..], key, k);
      j := i + 1;
    }
  }

  lemma HeadHasClass<T>(s: seq<T>, key: T -> Key)
    ensures s != [] ==> WithKey(s, key, key(s[0])) != []
  {
  }

  /** A sorted list is determined by its key classes: two sorted lists whose
      elements of each key appear in the same order are equal. */
  lemma {:induction false} SortedUnique<T>(a: seq<T>, b: seq<T>, key: T -> Key)
    requires Sorted(a, key) && Sorted(b, key)
    requires forall k :: WithKey(a, key, k) == WithKey(b, key, k)
    ensures a == b
  {
    if a == [] || b == [] {
      HeadHasClass(a, key);
      HeadHasClass(b, key);
    } else {
      SameHead(a, b, key);
      TailsShareClasses(a, b, key);
      SortedTail(a, key);
      SortedTail(b, key);
      SortedUnique(a[1..], b[1..], key);
      assert a == [a[0]] + a[1..] && b == [b[0]] + b[1..];
    }
  }

  lemma SortedTail<T>(s: seq<T>, key: T -> Key)
    requires s != [] && Sorted(s, key)
    ensures Sorted(s[1..], key)
  {
    var t := s[1..];
    forall i, j | 0 <= i < j < |t| ensures KeyLe(key(t[i]), key(t[j])) {
      assert t[i] == s[i + 1] && t[j] == s[j + 1];
    }
  }

  /** The first elements agree: both carry the smallest key, and they head
      the same class. */
  lemma SameHead<T>(a: seq<T>, b: seq<T>, key: T -> Key)
    requires a != [] && b != [] && Sorted(a, key) && Sorted(b, key)
    requires forall k :: WithKey(a, key, k) == WithKey(b, key, k)
    ensures a[0] == b[0] && key(a[0]) == key(b[0])
  {
    var ka, kb := key(a[0]), key(b[0]);
    HeadHasClass(a, key);
    HeadHasClass(b, key);
    var jb := WithKeyMember(b, key, ka);
    var ja := WithKeyMember(a, key, kb);
    assert KeyLe(kb, key(b[jb])) by {
      if jb > 0 { assert KeyLe(key(b[0]), key(b[jb])); }
    }
    assert KeyLe(ka, key(a[ja])) by {
      if ja > 0 { assert KeyLe(key(a[0]), key(a[ja])); }
    }
    assert ka == kb;
    assert WithKey(a, key, ka)[0] == a[0];
    assert WithKey(b, key, ka)[0] == b[0];
    assert WithKey(a, key, ka) == WithKey(b, key, ka);
  }

  /** With equal heads, removing them leaves lists with the same classes. */
  lemma TailsShareClasses<T>(a: seq<T>, b: seq<T>, key: T -> Key)
    requires a != [] && b != [] && a[0] == b[0]
    requires forall k :: WithKey(a, key, k) == WithKey(b, key, k)
    ensures forall k :: WithKey(a[1..], key, k) == WithKey(b[1..], key, k)
  {
    forall k ensures WithKey(a[1..], key, k) == WithKey(b[1..], key, k) {
      assert WithKey(a, key, k) == WithKey(b, key, k);
      var head := if key(a[0]) == k then [a[0]] else [];
      assert WithKey(a, key, k) == head + WithKey(a[1..], key, k);
      assert WithKey(b, key, k) == head + WithKey(b[1..], key, k);
      assert WithKey(a[1..], key, k) == WithKey(a, key, k)[|head|..];
      assert WithKey(b[1..], key, k) == WithKey(b, key, k)[|head|..];
    }
  }

  /** Any stable sort by `key` returns exactly SortByKey's result. */
  lemma StableSortIsSortByKey<T>(s: seq<T>, r: seq<T>, key: T -> Key)
    requires Sorted(r, key)
    requires forall k :: WithKey(r, key, k) == WithKey(s, key, k)
    ensures r == SortByKey(s, key)
  {
    SortByKeySorted(s, key);
    forall k ensures WithKey(r, key, k) == WithKey(SortByKey(s, key), key, k) {
      SortByKeyStable(s, key, k);
    }
    SortedUnique(r, SortByKey(s, key), key);
  }
}
