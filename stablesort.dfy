/** `list.sort(key=...)` (line 311): Python's sort is stable, so the result is
    ordered by key, is a permutation of the input, and keeps elements with
    equal keys in their original order. Modelled as an insertion sort, which
    has those three properties. */
module StableSort {

  predicate SortedByKey<T>(s: seq<T>, key: T -> int)
  {
    forall i, j :: 0 <= i < j < |s| ==> key(s[i]) <= key(s[j])
  }

  /** Where `x` goes: after the leading elements whose key is not larger than its own. */
  function InsertPos<T>(x: T, s: seq<T>, key: T -> int): (p: nat)
    ensures p <= |s|
    ensures forall i :: 0 <= i < p ==> key(s[i]) <= key(x)
    ensures p < |s| ==> key(x) < key(s[p])
  {
    if s == [] || key(x) < key(s[0]) then 0 else 1 + InsertPos(x, s[1..], key)
  }

  function Insert<T>(x: T, s: seq<T>, key: T -> int): seq<T>
  {
    var p := InsertPos(x, s, key);
    s[..p] + [x] + s[p..]
  }

  lemma InsertPermutes<T>(x: T, s: seq<T>, key: T -> int)
    ensures multiset(Insert(x, s, key)) == multiset(s) + multiset{x}
  {
    var p := InsertPos(x, s, key);
    assert s == s[..p] + s[p..];
  }

  lemma InsertSorted<T>(x: T, s: seq<T>, key: T -> int)
    requires SortedByKey(s, key)
    ensures SortedByKey(Insert(x, s, key), key)
  {
    var p := InsertPos(x, s, key);
    var r := Insert(x, s, key);
    assert |r| == |s| + 1;
    forall i | 0 <= i < |r| ensures r[i] == (if i < p then s[i] else if i == p then x else s[i - 1]) {
    }
    forall i, j | 0 <= i < j < |r| ensures key(r[i]) <= key(r[j]) {
      if j == p {
        assert r[i] == s[i];
      } else if i == p {
        assert r[j] == s[j - 1] && key(s[p]) <= key(s[j - 1]);
      }
    }
  }

  function SortByKey<T>(s: seq<T>, key: T -> int): seq<T>
  {
    if s == [] then [] else Insert(s[|s| - 1], SortByKey(s[..|s| - 1], key), key)
  }

  /** The result is ordered by key. */
  lemma {:induction false} SortSorts<T>(s: seq<T>, key: T -> int)
    ensures SortedByKey(SortByKey(s, key), key)
  {
    if s != [] {
      SortSorts(s[..|s| - 1], key);
      InsertSorted(s[|s| - 1], SortByKey(s[..|s| - 1], key), key);
    }
  }

  /** The result is a permutation of the input. */
  lemma {:induction false} SortPermutes<T>(s: seq<T>, key: T -> int)
    ensures multiset(SortByKey(s, key)) == multiset(s)
  {
    if s != [] {
      var init, x := s[..|s| - 1], s[|s| - 1];
      SortPermutes(init, key);
      InsertPermutes(x, SortByKey(init, key), key);
      assert s == init + [x];
    }
  }

  /** The elements of `s` whose key is `k`, in order. */
  function WithKey<T>(s: seq<T>, key: T -> int, k: int): seq<T>
  {
    if s == [] then []
    else (if key(s[0]) == k then [s[0]] else []) + WithKey(s[1..], key, k)
  }

  lemma {:induction false} WithKeyAppend<T>(a: seq<T>, b: seq<T>, key: T -> int, k: int)
    ensures WithKey(a + b, key, k) == WithKey(a, key, k) + WithKey(b, key, k)
  {
    if a == [] {
      assert a + b == b;
    } else {
      var h: seq<T> := if key(a[0]) == k then [a[0]] else [];
      assert (a + b)[0] == a[0] && (a + b)[1..] == a[1..] + b;
      assert WithKey(a + b, key, k) == h + WithKey(a[1..] + b, key, k);
      WithKeyAppend(a[1..], b, key, k);
      assert WithKey(a, key, k) == h + WithKey(a[1..], key, k);
    }
  }

  lemma {:induction false} WithKeyNone<T>(s: seq<T>, key: T -> int, k: int)
    requires forall i :: 0 <= i < |s| ==> key(s[i]) != k
    ensures WithKey(s, key, k) == []
  {
    if s != [] {
      WithKeyNone(s[1..], key, k);
    }
  }

  /** Inserting `x` into a sorted sequence appends it to the elements with its key. */
  lemma WithKeyInsert<T>(x: T, s: seq<T>, key: T -> int, k: int)
    requires SortedByKey(s, key)
    ensures WithKey(Insert(x, s, key), key, k) == WithKey(s, key, k) + WithKey([x], key, k)
  {
    var p := InsertPos(x, s, key);
    WithKeyAround(x, s, p, key, k);
    var l, m, h := WithKey(s[..p], key, k), WithKey([x], key, k), WithKey(s[p..], key, k);
    if key(x) == k {
      HigherKeys(x, s, key);
      WithKeyNone(s[p..], key, k);
      assert l + m + h == (l + h) + m;
    } else {
      assert m == [] by { assert [x][1..] == []; }
      assert l + m + h == (l + h) + m;
    }
  }

  /** Placing `x` at `p` puts its contribution between those of the two halves. */
  lemma WithKeyAround<T>(x: T, s: seq<T>, p: nat, key: T -> int, k: int)
    requires p <= |s|
    ensures WithKey(s[..p] + [x] + s[p..], key, k) == WithKey(s[..p], key, k) + WithKey([x], key, k) + WithKey(s[p..], key, k)
    ensures WithKey(s, key, k) == WithKey(s[..p], key, k) + WithKey(s[p..], key, k)
  {
    WithKeySplit(s, p, key, k);
    WithKeyAppend(s[..p] + [x], s[p..], key, k);
    WithKeyAppend(s[..p], [x], key, k);
  }

  lemma WithKeySplit<T>(s: seq<T>, p: nat, key: T -> int, k: int)
    requires p <= |s|
    ensures WithKey(s, key, k) == WithKey(s[..p], key, k) + WithKey(s[p..], key, k)
  {
    assert s == s[..p] + s[p..];
    WithKeyAppend(s[..p], s[p..], key, k);
  }

  /** The elements after the insertion point have larger keys than `x`. */
  lemma HigherKeys<T>(x: T, s: seq<T>, key: T -> int)
    requires SortedByKey(s, key)
    ensures var p := InsertPos(x, s, key);
      forall i :: 0 <= i < |s[p..]| ==> key(s[p..][i]) != key(x)
  {
    var p := InsertPos(x, s, key);
    forall i | 0 <= i < |s[p..]| ensures key(s[p..][i]) != key(x) {
      assert key(s[p]) <= key(s[p + i]);
    }
  }

  /** Stability: for every key, the elements with that key keep their relative order. */
  lemma {:induction false} SortIsStable<T>(s: seq<T>, key: T -> int, k: int)
    ensures WithKey(SortByKey(s, key), key, k) == WithKey(s, key, k)
  {
    if s != [] {
      var init := s[..|s| - 1];
      var x := s[|s| - 1];
      SortIsStable(init, key, k);
      SortSorts(init, key);
      WithKeyInsert(x, SortByKey(init, key), key, k);
      assert s == init + [x];
      WithKeyAppend(init, [x], key, k);
    }
  }

  lemma MultisetTail<T>(a: seq<T>)
    requires a != []
    ensures multiset(a[1..]) == multiset(a) - multiset{a[0]}
  {
    assert a == [a[0]] + a[1..];
  }

  /** Elements with equal keys are equal. */
  ghost predicate KeyInjective<T>(s: seq<T>, key: T -> int)
  {
    forall i, j :: 0 <= i < |s| && 0 <= j < |s| && key(s[i]) == key(s[j]) ==> s[i] == s[j]
  }

  lemma SameHead<T>(a: seq<T>, b: seq<T>, key: T -> int)
    requires SortedByKey(a, key) && SortedByKey(b, key)
    requires multiset(a) == multiset(b) && a != []
    requires KeyInjective(a, key)
    ensures b != [] && a[0] == b[0]
  {
    assert a[0] in multiset(b);
    assert b != [];
    assert b[0] in multiset(a);
    var i :| 0 <= i < |a| && a[i] == b[0];
    var j :| 0 <= j < |b| && b[j] == a[0];
    assert key(a[0]) <= key(a[i]) && key(b[0]) <= key(b[j]);
  }

  lemma KeyInjectiveTail<T>(a: seq<T>, key: T -> int)
    requires a != [] && KeyInjective(a, key)
    ensures KeyInjective(a[1..], key)
  {
    var a' := a[1..];
    forall i, j | 0 <= i < |a'| && 0 <= j < |a'| && key(a'[i]) == key(a'[j]) ensures a'[i] == a'[j] {
      assert a'[i] == a[i + 1] && a'[j] == a[j + 1];
    }
  }

  lemma SortedTail<T>(a: seq<T>, key: T -> int)
    requires a != [] && SortedByKey(a, key)
    ensures SortedByKey(a[1..], key)
  {
    var a' := a[1..];
    forall i, j | 0 <= i < j < |a'| ensures key(a'[i]) <= key(a'[j]) {
      assert a'[i] == a[i + 1] && a'[j] == a[j + 1];
    }
  }

  /** When equal keys mean equal elements, a sorted permutation is unique. */
  lemma {:induction false} SortedPermutationUnique<T>(a: seq<T>, b: seq<T>, key: T -> int)
    requires SortedByKey(a, key) && SortedByKey(b, key)
    requires multiset(a) == multiset(b)
    requires KeyInjective(a, key)
    ensures a == b
    decreases |a|
  {
    if a != [] {
      SameHead(a, b, key);
      MultisetTail(a);
      MultisetTail(b);
      KeyInjectiveTail(a, key);
      SortedTail(a, key);
      SortedTail(b, key);
      SortedPermutationUnique(a[1..], b[1..], key);
      SameHeadAndTail(a, b);
    }
  }

  lemma SameHeadAndTail<T>(a: seq<T>, b: seq<T>)
    requires a != [] && b != [] && a[0] == b[0] && a[1..] == b[1..]
    ensures a == b
  {
    assert a == [a[0]] + a[1..];
    assert b == [b[0]] + b[1..];
  }
}
